/** virtualIPAllocator.sync: the maps changed one operation at a time, with DNS answers handled in
    between, and never misleading a connect or an answer on the way. */
module VirtualIPAllocator {
  import opened Arithmetic
  import opened Options
  import opened FreeVirtualIP
  import opened VirtualIPPlan
  import opened VirtualIPPlanMeaning
  import opened VirtualIPPlanProperties
  import opened VirtualIPPlanner
  import opened VipUpstream
  import opened VirtualIPMaps

  // ---- The two families of a plan ----

  function FamilyOf(entries: map<IP, Entry>, six: bool): (r: map<Addr, Entry>) {
    if six then map ip | ip in entries && ip.V6? :: ip.n := entries[ip]
    else map ip | ip in entries && ip.V4? :: ip.n := entries[ip]
  }

  function Addresses(ns: set<Addr>, six: bool): (ips: set<IP>)
    ensures forall ip :: ip in ips <==> ip.n in ns && ip.V6? == six
  {
    var ips := set n | n in ns :: if six then V6(n) else V4(n);
    assert forall ip :: ip in ips <==> ip.n in ns && ip.V6? == six by {
      forall ip: IP | ip.n in ns && ip.V6? == six ensures ip in ips {
        assert ip == if six then V6(ip.n) else V4(ip.n);
      }
    }
    ips
  }

  function Join(e4: map<Addr, Entry>, e6: map<Addr, Entry>): (r: map<IP, Entry>) {
    map ip | ip in Addresses(e4.Keys, false) + Addresses(e6.Keys, true) :: if ip.V4? then e4[ip.n] else e6[ip.n]
  }

  function HostVals(h4: map<Host, Addr>, h6: map<Host, Addr>): (r: map<Host, HostVal>) {
    map h | h in h4.Keys + h6.Keys :: HostVal(if h in h4 then h4[h] else 0, if h in h6 then h6[h] else 0)
  }

  datatype Ranges = Ranges(r4: Range, r6: Range) {
    predicate Valid() {
      && r4.Range? && r4.Valid() && !r4.six && r6.Valid()
      && (r6.Range? ==> r6.six && (r6.size >= TWO64 || r6.size <= TWO64 / 2))
    }
  }

  // Each family gets half of the map, or IPv4 all of it when there is no IPv6 range.
  ghost function Plan4(rs: Ranges, hash: Host -> nat, watched: set<Host>, existing: map<IP, Entry>, now: int, capacity: nat): (r: Plan)
    requires rs.Valid()
  {
    PlanOf(rs.r4, hash, watched, FamilyOf(existing, false), now, if rs.r6.Range? then capacity / 2 else capacity)
  }

  ghost function Plan6(rs: Ranges, hash: Host -> nat, watched: set<Host>, existing: map<IP, Entry>, now: int, capacity: nat): (r: Plan)
    requires rs.Valid()
  {
    PlanOf(rs.r6, hash, if rs.r6.Range? then watched else {}, FamilyOf(existing, true), now,
           capacity - (if rs.r6.Range? then capacity / 2 else capacity))
  }

  method PlanVirtualIPRanges(rs: Ranges, hash: Host -> nat, watched: set<Host>, existing: map<IP, Entry>, now: int, capacity: nat)
    returns (p4: VipPlan, p6: VipPlan)
    requires rs.Valid() && forall h :: hash(h) < TWO64
    requires |existing| + |watched| < 0x4000_0000_0000_0000
    ensures fresh(p4) && fresh(p6)
    ensures p4.Value() == Plan4(rs, hash, watched, existing, now, capacity)
    ensures p6.Value() == Plan6(rs, hash, watched, existing, now, capacity)
    ensures ZeroFree(existing) ==> Inverse(p4.Value()) && 0 !in p4.entries && Inverse(p6.Value()) && 0 !in p6.entries
  {
    hide PlanOf, Inverse, FamilyOf, ZeroFree;
    var ex4, ex6 := FamilyOf(existing, false), FamilyOf(existing, true);
    FamilySize(existing, false);
    FamilySize(existing, true);
    var cap4, hosts6 := capacity, {};
    if rs.r6.Range? {
      cap4, hosts6 := capacity / 2, watched;
    }
    p4 := PlanVirtualIPs(rs.r4, hash, watched, ex4, now, cap4);
    p6 := PlanVirtualIPs(rs.r6, hash, hosts6, ex6, now, capacity - cap4);
    if ZeroFree(existing) {
      FamilyZeroFree(existing);
      FamilyPlan(rs.r4, hash, watched, ex4, now, cap4);
      FamilyPlan(rs.r6, hash, hosts6, ex6, now, capacity - cap4);
    }
  }

  lemma FamilyZeroFree(entries: map<IP, Entry>)
    requires ZeroFree(entries)
    ensures 0 !in FamilyOf(entries, false) && 0 !in FamilyOf(entries, true)
  {
  }

  lemma FamilySize(entries: map<IP, Entry>, six: bool)
    ensures |FamilyOf(entries, six)| <= |entries|
  {
    var ns := FamilyOf(entries, six).Keys;
    assert forall n :: n in ns ==> IPOf(n, six) in entries.Keys;
    assert |entries.Keys| == |entries| && |ns| == |FamilyOf(entries, six)|;
    hide FamilyOf;
    NumbersSize(entries.Keys, ns, six);
  }

  lemma {:induction false} NumbersSize(s: set<IP>, ns: set<nat>, six: bool)
    requires forall n :: n in ns ==> IPOf(n, six) in s
    ensures |ns| <= |s|
    decreases |ns|
  {
    if ns != {} {
      var n :| n in ns;
      NumbersSize(s - {IPOf(n, six)}, ns - {n}, six);
    }
  }

  function IPOf(n: nat, six: bool): (r: IP) {
    if six then V6(n) else V4(n)
  }

  // Two host tables that name only fake IPs of the plan.
  ghost predicate FromPlan(s: Sync, h4: map<Host, Addr>, h6: map<Host, Addr>) {
    && (forall h :: h in h4 ==> V4(h4[h]) in s.plan && s.plan[V4(h4[h])] == Active(h))
    && (forall h :: h in h6 ==> V6(h6[h]) in s.plan && s.plan[V6(h6[h])] == Active(h))
  }

  lemma HostValsGranted(s: Sync, h4: map<Host, Addr>, h6: map<Host, Addr>)
    requires FromPlan(s, h4, h6)
    ensures forall h :: h in HostVals(h4, h6) ==> Granted(s, h, HostVals(h4, h6)[h])
  {
  }

  lemma InJoin(e4: map<Addr, Entry>, e6: map<Addr, Entry>, ip: IP)
    ensures ip in Join(e4, e6) <==> if ip.V4? then ip.n in e4 else ip.n in e6
    ensures ip in Join(e4, e6) ==> Join(e4, e6)[ip] == if ip.V4? then e4[ip.n] else e6[ip.n]
  {
    hide Addresses;
  }

  lemma JoinGrants(s: Sync, p4: Plan, p6: Plan)
    requires s.plan == Join(p4.entries, p6.entries)
    requires Inverse(p4) && Inverse(p6) && 0 !in p4.entries && 0 !in p6.entries
    ensures ZeroFree(s.plan) && FromPlan(s, p4.hosts, p6.hosts)
  {
    hide Join;
    forall ip ensures ip in s.plan ==> ip.n != 0 {
      InJoin(p4.entries, p6.entries, ip);
    }
    forall h | h in p4.hosts ensures V4(p4.hosts[h]) in s.plan && s.plan[V4(p4.hosts[h])] == Active(h) {
      InJoin(p4.entries, p6.entries, V4(p4.hosts[h]));
    }
    forall h | h in p6.hosts ensures V6(p6.hosts[h]) in s.plan && s.plan[V6(p6.hosts[h])] == Active(h) {
      InJoin(p4.entries, p6.entries, V6(p6.hosts[h]));
    }
  }

  lemma FamilyPlan(r: Range, hash: Host -> nat, watched: set<Host>, existing: map<Addr, Entry>, now: int, capacity: nat)
    requires (watched != {} ==> r.Range? && r.Valid()) && 0 !in existing
    ensures var p := PlanOf(r, hash, watched, existing, now, capacity); Inverse(p) && 0 !in p.entries
  {
    hide PlanOf, Inverse, Current, InOrder, Continues, Settle, WithinCapacity;
    PlanSound(r, hash, watched, existing, now, capacity);
    PlanNonZero(r, hash, watched, existing, now, capacity);
  }

  // ---- The maps as they are shared ----

  // An address record of a DNS answer, in the question's family: an address of 4 or 16 bytes, as a number.
  datatype Rec = Rec(addr: nat, ttl: nat)

  const MAX_RECORDS := 8

  // An IPv4-mapped IPv6 address (section 2.5.5.2 of RFC 4291) is that IPv4 address: the maps hold IPv4 in this form.
  function AddressOf(rec: Rec, six: bool): (r: IP) {
    if six && rec.addr / TWO32 != 0xffff then V6(rec.addr) else V4(rec.addr % TWO32)
  }

  // An address that is not fake already.
  predicate Real(rs: Ranges, rec: Rec, six: bool) {
    !InRange(rs.r4, rs.r6, AddressOf(rec, six))
  }

  // A TTL with the top bit set means 0 (RFC 2181).
  function Expiry(rec: Rec, now: nat): (r: nat) {
    now + (if rec.ttl > 0x7FFF_FFFF then 0 else rec.ttl) * 1_000_000_000
  }

  function AddressesOf(upstream: map<IP, seq<Slot>>, fake: IP): (r: seq<Slot>) {
    if fake in upstream then upstream[fake] else EMPTY
  }

  // The real addresses of an answer are recorded in turn, each until it expires.
  ghost predicate RecordedAll(rs: Ranges, before: seq<Slot>, after: seq<Slot>, host: Host, six: bool, recs: seq<Rec>, now: nat) {
    exists slots: seq<seq<Slot>> :: RecordedThrough(rs, slots, host, six, recs, now) && slots[0] == before && slots[|recs|] == after
  }

  ghost predicate RecordedThrough(rs: Ranges, slots: seq<seq<Slot>>, host: Host, six: bool, recs: seq<Rec>, now: nat) {
    |slots| == |recs| + 1 && forall i :: 0 <= i < |recs| ==> RecordedOne(rs, slots[i], slots[i + 1], host, six, recs[i], now)
  }

  ghost predicate RecordedOne(rs: Ranges, before: seq<Slot>, after: seq<Slot>, host: Host, six: bool, rec: Rec, now: nat) {
    if !Real(rs, rec, six) then after == before
    else |before| == |after| == SLOTS && Recorded(before, after, AddressOf(rec, six), Expiry(rec, now), host)
  }

  // ---- What is recorded, spelled out ----

  // The address an answer's record holds: of an A record its 4 bytes, of an AAAA record its 16, an IPv4-mapped one as
  // IPv4.
  predicate AddressIs(rec: Rec, six: bool, ip: IP) {
    if !six then ip == V4(rec.addr % 0x1_0000_0000)
    else if 0xffff_0000_0000 <= rec.addr < 0x1_0000_0000_0000 then ip == V4(rec.addr - 0xffff_0000_0000)
    else ip == V6(rec.addr)
  }

  predicate OutOfRange(rs: Ranges, ip: IP) {
    && (ip.V4? ==> !rs.r4.Range? || ip.n < rs.r4.base || ip.n >= rs.r4.base + rs.r4.size)
    && (ip.V6? ==> !rs.r6.Range? || ip.n < rs.r6.base || ip.n >= rs.r6.base + rs.r6.size)
  }

  lemma AddressOfIs(rec: Rec, six: bool, ip: IP)
    ensures AddressIs(rec, six, ip) <==> ip == AddressOf(rec, six)
  {
    if six {
      assert rec.addr / TWO32 == 0xffff <==> 0xffff_0000_0000 <= rec.addr < 0x1_0000_0000_0000;
    }
  }

  lemma RealMeans(rs: Ranges, rec: Rec, six: bool)
    ensures Real(rs, rec, six) <==> exists ip :: AddressIs(rec, six, ip) && OutOfRange(rs, ip)
  {
    AddressOfIs(rec, six, AddressOf(rec, six));
    forall ip ensures AddressIs(rec, six, ip) <==> ip == AddressOf(rec, six) {
      AddressOfIs(rec, six, ip);
    }
    hide AddressOf, AddressIs;
  }

  // A record whose address is not fake and not 0: afterwards a slot holds it until its TTL runs out, none at all with the
  // top bit of the TTL set, or for longer if it was held for longer; and if it was not held before, for the host of the
  // answer, in place of what expires first. A record with a fake address changes nothing.
  lemma RecordedExactly(rs: Ranges, before: seq<Slot>, after: seq<Slot>, host: Host, six: bool, rec: Rec, now: nat, ip: IP)
    requires RecordedOne(rs, before, after, host, six, rec, now) && IsUpstream(before) && AddressIs(rec, six, ip) && now > 0
    ensures !OutOfRange(rs, ip) ==> after == before
    ensures OutOfRange(rs, ip) && ip.n != 0 ==>
              var until := if rec.ttl >= 0x8000_0000 then now else now + rec.ttl * 1_000_000_000;
              && |after| == 4
              && (exists i :: 0 <= i < 4 && after[i].ip == ip && after[i].expires >= until
                              && forall j :: 0 <= j < 4 && j != i ==> after[j] == before[j])
              && ((forall i :: 0 <= i < 4 ==> before[i].ip != ip) ==>
                    exists i :: && 0 <= i < 4 && after[i] == Slot(ip, until, host)
                                && forall j :: 0 <= j < 4 ==> before[i].expires <= before[j].expires)
  {
    AddressOfIs(rec, six, ip);
    assert Real(rs, rec, six) <==> OutOfRange(rs, ip);
    hide AddressOf, Real;
    if OutOfRange(rs, ip) && ip.n != 0 {
      var until := Expiry(rec, now);
      hide Expiry;
      if Holds(before, ip) {
        var k :| && 0 <= k < SLOTS && Live(before[k]) && before[k].ip == ip
                 && after == before[k := before[k].(expires := if until > before[k].expires then until else before[k].expires)];
        assert after[k].ip == ip;
      } else {
        var k :| IsVictim(before, k) && after == before[k := Slot(ip, until, host)];
        assert after[k].ip == ip;
      }
    }
  }

  lemma RecordedNone(rs: Ranges, cur: seq<Slot>, host: Host, six: bool, now: nat)
    ensures RecordedAll(rs, cur, cur, host, six, [], now)
  {
    assert RecordedThrough(rs, [cur], host, six, [], now);
  }

  lemma RecordedOneMore(rs: Ranges, cur: seq<Slot>, mid: seq<Slot>, after: seq<Slot>, host: Host, six: bool, recs: seq<Rec>, rec: Rec, now: nat)
    requires RecordedAll(rs, cur, mid, host, six, recs, now) && RecordedOne(rs, mid, after, host, six, rec, now)
    ensures RecordedAll(rs, cur, after, host, six, recs + [rec], now)
  {
    hide RecordedOne;
    var slots :| RecordedThrough(rs, slots, host, six, recs, now) && slots[0] == cur && slots[|recs|] == mid;
    assert RecordedThrough(rs, slots + [after], host, six, recs + [rec], now);
  }

  class SharedMaps {
    const ranges: Ranges
    var hostIP: map<Host, HostVal>
    var ipHost: map<IP, Entry>
    var upstream: map<IP, seq<Slot>>
    // Every state the maps went through.
    ghost var trace: seq<Maps>

    ghost function Value(): (r: Maps)
      reads this
    {
      Maps(hostIP, ipHost, upstream)
    }

    ghost predicate Logged()
      reads this
    {
      trace != [] && trace[|trace| - 1] == Value()
    }

    constructor (rs: Ranges)
      ensures Logged() && ranges == rs && Value() == Maps(map[], map[], map[]) && trace == [Value()] && Safe(Value())
    {
      ranges := rs;
      hostIP, ipHost, upstream := map[], map[], map[];
      new;
      trace := [Value()];
    }

    // tc_dns_rewrite from the host lookup on: record the answer's real addresses under the host's fake
    // IP, then hand out the fake IP. `allowed`: the pod is in vip_pod_host; `full`: the map has no room.
    method DnsRewrite(host: Host, six: bool, recs: seq<Rec>, now: nat, allowed: bool, full: bool) returns (fake: Option<IP>)
      requires Safe(Value()) && |recs| <= MAX_RECORDS && now < 0x4000_0000_0000_0000
      modifies this`upstream, this`trace
      ensures Answered(old(Value()), Value()) && Safe(Value())
      ensures if Value() == old(Value()) then trace == old(trace) || trace == old(trace) + [Value()] else trace == old(trace) + [Value()]
      ensures fake.Some? <==>
                host in hostIP && InRange(ranges.r4, ranges.r6, FakeOf(hostIP[host], six)) && allowed && !full
                && exists i :: 0 <= i < |recs| && Real(ranges, recs[i], six)
      ensures fake.Some? <==>
                && host in hostIP && allowed && !full
                && (if six then ranges.r6.Range? && ranges.r6.base <= hostIP[host].ip6 < ranges.r6.base + ranges.r6.size
                    else ranges.r4.Range? && ranges.r4.base <= hostIP[host].ip4 < ranges.r4.base + ranges.r4.size)
                && exists i, ip :: 0 <= i < |recs| && AddressIs(recs[i], six, ip) && OutOfRange(ranges, ip)
      ensures fake.None? ==> upstream == old(upstream)
      ensures fake.Some? ==>
                && fake.value == FakeOf(hostIP[host], six) && fake.value in upstream
                && upstream == old(upstream)[fake.value := upstream[fake.value]]
                && RecordedAll(ranges, AddressesOf(old(upstream), fake.value), upstream[fake.value], host, six, recs, now)
    {
      hide RecordedAll, Real, AddressIs, OutOfRange;
      forall i | 0 <= i < |recs|
        ensures Real(ranges, recs[i], six) <==> exists ip :: AddressIs(recs[i], six, ip) && OutOfRange(ranges, ip)
      {
        RealMeans(ranges, recs[i], six);
      }
      AnsweredSelf(Value());
      if host !in hostIP {
        return None;
      }
      var fk := FakeOf(hostIP[host], six);
      if !InRange(ranges.r4, ranges.r6, fk) || !allowed {
        return None;
      }
      var cur := AddressesOf(upstream, fk);
      var up, recorded := RecordAll(cur, host, six, recs, now);
      if !recorded || full {
        return None;
      }
      ghost var before := Value();
      upstream := upstream[fk := up];
      trace := trace + [Value()];
      RecordedAnswered(before, Value(), host, six, up);
      AnsweredSafe(before, Value());
      fake := Some(fk);
    }

    method RecordAll(cur: seq<Slot>, host: Host, six: bool, recs: seq<Rec>, now: nat) returns (up: seq<Slot>, recorded: bool)
      requires IsUpstream(cur) && now < 0x4000_0000_0000_0000
      ensures IsUpstream(up) && RecordedAll(ranges, cur, up, host, six, recs, now)
      ensures recorded <==> exists i :: 0 <= i < |recs| && Real(ranges, recs[i], six)
      ensures forall i :: 0 <= i < SLOTS && Live(up[i]) ==> up[i].host == host || SlotHost(cur, up[i].host)
    {
      var v := new Slot[SLOTS](i requires 0 <= i < SLOTS => cur[i]);
      assert v[..] == cur;
      recorded := false;
      forall i | 0 <= i < SLOTS && Live(cur[i]) ensures SlotHost(cur, cur[i].host) {
      }
      RecordedNone(ranges, cur, host, six, now);
      assert recs[..0] == [];
      for i := 0 to |recs|
        invariant IsUpstream(v[..]) && RecordedAll(ranges, cur, v[..], host, six, recs[..i], now)
        invariant recorded <==> exists j :: 0 <= j < i && Real(ranges, recs[j], six)
        invariant forall k :: 0 <= k < SLOTS && Live(v[k]) ==> v[k].host == host || SlotHost(cur, v[k].host)
      {
        hide RecordedAll, RecordedOne, Real, IsUpstream;
        ghost var was := v[..];
        assert recs[..i + 1] == recs[..i] + [recs[i]];
        var real_ := RecordOne(v, host, six, recs[i], now);
        RecordedOneMore(ranges, cur, was, v[..], host, six, recs[..i], recs[i], now);
        recorded := recorded || real_;
      }
      up := v[..];
      assert recs[..|recs|] == recs;
    }

    // One record; reports whether its address is real.
    method RecordOne(v: array<Slot>, host: Host, six: bool, rec: Rec, now: nat) returns (real_: bool)
      requires v.Length == SLOTS && IsUpstream(v[..]) && now < 0x4000_0000_0000_0000
      modifies v
      ensures IsUpstream(v[..]) && RecordedOne(ranges, old(v[..]), v[..], host, six, rec, now) && real_ == Real(ranges, rec, six)
      ensures forall k :: 0 <= k < SLOTS && Live(v[k]) ==> v[k].host == host || SlotHost(old(v[..]), v[k].host)
    {
      hide Recorded;
      forall i | 0 <= i < SLOTS && Live(v[i]) ensures SlotHost(v[..], v[i].host) {
        assert v[..][i] == v[i];
      }
      var address := AddressOf(rec, six);
      if InRange(ranges.r4, ranges.r6, address) {
        return false;
      }
      var ttl := if rec.ttl > 0x7FFF_FFFF then 0 else rec.ttl;
      VipUpstreamRecord(v, address, now + ttl * 1_000_000_000, host);
      RecordedHosts(old(v[..]), v[..], address, now + ttl * 1_000_000_000, host);
      return true;
    }

    // Any number of DNS answers.
    method Interfere()
      requires Safe(Value()) && Logged()
      modifies this`upstream, this`trace
      ensures Answered(old(Value()), Value()) && Safe(Value()) && Grew(old(trace), trace) && Logged()
    {
      AnsweredSelf(Value());
      var n: int := *;
      while n > 0
        invariant Answered(old(Value()), Value()) && Safe(Value()) && Grew(old(trace), trace) && Logged()
      {
        var host: Host, six: bool, recs: seq<Rec>, now: nat, allowed: bool, full: bool := *, *, *, *, *, *;
        ghost var mid := Value();
        n := n - 1;
        if |recs| <= MAX_RECORDS && now < 0x4000_0000_0000_0000 {
          ghost var was := trace;
          var _ := DnsRewrite(host, six, recs, now, allowed, full);
          AnsweredTrans(old(Value()), mid, Value());
          if trace != was {
            GrewBy(old(trace), was, Value());
          }
        }
      }
    }

    // One operation of the controller on one map, and the DNS answers handled before its next one.
    method Perform(op: MapOp)
      requires Safe(Do(op, Value())) && Logged()
      modifies this
      ensures Answered(Do(op, old(Value())), Value()) && Safe(Value()) && Grew(old(trace), trace) && Logged()
    {
      hide Safe, Answered;
      match op {
        case DropHostIP(h) => hostIP := hostIP - {h};
        case PutHostIP(h, v) => hostIP := hostIP[h := v];
        case DropIPHost(ip) => ipHost := ipHost - {ip};
        case PutIPHost(ip, e) => ipHost := ipHost[ip := e];
        case DropUpstream(ip) => upstream := upstream - {ip};
      }
      trace := trace + [Value()];
      assert Value() == Do(op, old(Value()));
      GrewBy(old(trace), old(trace), Value());
      ghost var mid := trace;
      Interfere();
      GrewTrans(old(trace), mid, trace);
    }
  }

  datatype MapOp = DropHostIP(h: Host) | PutHostIP(h: Host, v: HostVal)
                 | DropIPHost(ip: IP) | PutIPHost(ip: IP, e: Entry) | DropUpstream(ip: IP)

  function Do(op: MapOp, m: Maps): (r: Maps) {
    match op
    case DropHostIP(h) => m.(hostIP := m.hostIP - {h})
    case PutHostIP(h, v) => m.(hostIP := m.hostIP[h := v])
    case DropIPHost(ip) => m.(ipHost := m.ipHost - {ip})
    case PutIPHost(ip, e) => m.(ipHost := m.ipHost[ip := e])
    case DropUpstream(ip) => m.(upstream := m.upstream - {ip})
  }

  // One operation of the controller, or one DNS answer.
  ghost predicate Next(m: Maps, m': Maps) {
    Answered(m, m') || exists op :: m' == Do(op, m)
  }

  // The trace grew by safe states, each the next of the one before.
  ghost predicate Grew(before: seq<Maps>, after: seq<Maps>) {
    && before != [] && before <= after
    && forall i :: |before| <= i < |after| ==> Safe(after[i]) && Next(after[i - 1], after[i])
  }

  lemma GrewBy(before: seq<Maps>, after: seq<Maps>, m: Maps)
    requires Grew(before, after) && Safe(m) && Next(after[|after| - 1], m)
    ensures Grew(before, after + [m])
  {
    hide Safe, Next;
  }

  lemma GrewTrans(a: seq<Maps>, b: seq<Maps>, c: seq<Maps>)
    requires Grew(a, b) && Grew(b, c)
    ensures Grew(a, c)
  {
    hide Safe, Next;
    forall i | |a| <= i < |c| ensures Safe(c[i]) && Next(c[i - 1], c[i]) {
      if i < |b| {
        assert c[i] == b[i] && c[i - 1] == b[i - 1];
      }
    }
  }

  ghost predicate SlotHost(v: seq<Slot>, h: Host) {
    exists i :: 0 <= i < |v| && Live(v[i]) && v[i].host == h
  }

  lemma RecordedHosts(before: seq<Slot>, after: seq<Slot>, ip: IP, expires: nat, host: Host)
    requires IsUpstream(before) && IsUpstream(after) && Recorded(before, after, ip, expires, host)
    ensures forall i :: 0 <= i < SLOTS && Live(after[i]) ==> after[i].host == host || (Live(before[i]) && after[i].host == before[i].host)
  {
  }

  lemma RecordedAnswered(m: Maps, m': Maps, host: Host, six: bool, up: seq<Slot>)
    requires Owned(m) && host in m.hostIP && IsUpstream(up)
    requires var fk := FakeOf(m.hostIP[host], six);
             m' == m.(upstream := m.upstream[fk := up])
             && forall i :: 0 <= i < SLOTS && Live(up[i]) ==>
                  up[i].host == host || SlotHost(if fk in m.upstream then m.upstream[fk] else EMPTY, up[i].host)
    ensures Answered(m, m')
  {
    var fk := FakeOf(m.hostIP[host], six);
    forall ip, i | ip in m'.upstream && 0 <= i < SLOTS && Live(m'.upstream[ip][i])
      ensures Recalled(m, ip, m'.upstream[ip][i].host)
    {
      if ip == fk && up[i].host != host {
        assert fk in m.upstream;
        var k :| 0 <= k < |m.upstream[fk]| && Live(m.upstream[fk][k]) && m.upstream[fk][k].host == up[i].host;
      }
    }
  }

  // ---- Sync ----

  // What keeping a host's entry means: it is still wanted and loses no fake IP.
  predicate Keeps(current: map<Host, HostVal>, want: map<Host, HostVal>, h: Host) {
    h in current && h in want && !Drops(current[h], want[h])
  }

  function NotKept(current: map<Host, HostVal>, want: map<Host, HostVal>, todo: set<Host>): (r: set<Host>) {
    set h | h in current && h !in todo && !Keeps(current, want, h)
  }

  lemma NotKeptNext(current: map<Host, HostVal>, want: map<Host, HostVal>, todo: set<Host>, h: Host)
    requires h in todo && todo <= current.Keys
    ensures NotKept(current, want, todo - {h}) ==
            if Keeps(current, want, h) then NotKept(current, want, todo) else NotKept(current, want, todo) + {h}
  {
  }

  lemma NoneNotKept(current: map<Host, HostVal>, want: map<Host, HostVal>)
    ensures NotKept(current, want, current.Keys) == {}
  {
  }

  lemma NotKeptMeans(current: map<Host, HostVal>, want: map<Host, HostVal>)
    ensures forall h :: h in NotKept(current, want, {}) <==>
              && h in current
              && (|| h !in want || (current[h].ip4 != 0 && want[h].ip4 != current[h].ip4)
                  || (current[h].ip6 != 0 && want[h].ip6 != current[h].ip6))
  {
  }

  // Drop the entries of hosts that are no longer wanted or lose a fake IP.
  method DropHosts(maps: SharedMaps, current: map<Host, HostVal>, want: map<Host, HostVal>) returns (dropped: set<Host>)
    requires Safe(maps.Value()) && maps.hostIP == current
    requires maps.Logged()
    modifies maps
    ensures old(maps.upstream).Keys <= maps.upstream.Keys
    ensures Safe(maps.Value()) && Grew(old(maps.trace), maps.trace) && maps.Logged() && maps.ipHost == old(maps.ipHost)
    ensures dropped == NotKept(current, want, {})
    ensures forall h :: h in dropped <==>
              && h in current
              && (|| h !in want || (current[h].ip4 != 0 && want[h].ip4 != current[h].ip4)
                  || (current[h].ip6 != 0 && want[h].ip6 != current[h].ip6))
    ensures maps.hostIP == current - dropped
  {
    hide Safe, Drops, NotKept;
    dropped := {};
    var todo := current.Keys;
    NoneNotKept(current, want);
    NotKeptMeans(current, want);
    assert Grew(maps.trace, maps.trace);
    hide Grew;
    while todo != {}
      invariant old(maps.upstream).Keys <= maps.upstream.Keys
      invariant todo <= current.Keys && Safe(maps.Value()) && Grew(old(maps.trace), maps.trace) && maps.Logged()
      invariant maps.ipHost == old(maps.ipHost)
      invariant dropped == NotKept(current, want, todo)
      invariant maps.hostIP == current - dropped
      decreases |todo|
    {
      var host :| host in todo;
      NotKeptNext(current, want, todo, host);
      todo := todo - {host};
      if host in want && !Drops(current[host], want[host]) {
        continue;
      }
      DropHost(maps.Value(), host);
      assert maps.hostIP - {host} == current - (dropped + {host});
      ghost var t := maps.trace;
      maps.Perform(DropHostIP(host));
      GrewTrans(old(maps.trace), t, maps.trace);
      dropped := dropped + {host};
    }
  }

  function Remaining(existing: map<IP, Entry>, entries: map<IP, Entry>, todo: set<IP>): (r: map<IP, Entry>) {
    map ip | ip in existing && (ip in entries || ip in todo) :: existing[ip]
  }

  // The state between phases of a sync.
  ghost predicate Midway(s: Sync, m: Maps) {
    Safe(m) && Stable(s, m) && Between(s, m)
  }

  // Release the reservations that are not planned, making room before new ones.
  method ReleaseAll(maps: SharedMaps, ghost s: Sync, existing: map<IP, Entry>, entries: map<IP, Entry>) returns (failed: bool)
    requires s.existing == existing && s.plan == entries && maps.ipHost == existing && Midway(s, maps.Value())
    requires maps.Logged()
    modifies maps
    ensures old(maps.upstream).Keys <= maps.upstream.Keys
    ensures Midway(s, maps.Value()) && Grew(old(maps.trace), maps.trace) && maps.Logged() && maps.hostIP == old(maps.hostIP)
    ensures !failed ==> maps.ipHost == Remaining(existing, entries, {})
  {
    hide Resolvable, Owned, ZeroFree, Stable, Between;
    failed := false;
    var todo := existing.Keys;
    assert Remaining(existing, entries, todo) == existing;
    while todo != {}
      invariant old(maps.upstream).Keys <= maps.upstream.Keys
      invariant todo <= existing.Keys && Midway(s, maps.Value()) && Grew(old(maps.trace), maps.trace) && maps.Logged()
      invariant maps.hostIP == old(maps.hostIP)
      invariant !failed ==> maps.ipHost == Remaining(existing, entries, todo)
      decreases |todo|
    {
      var ip :| ip in todo;
      ghost var left := Remaining(existing, entries, todo);
      todo := todo - {ip};
      assert Remaining(existing, entries, todo) == if ip in entries then left else left - {ip};
      if ip in entries {
        continue;
      }
      var ok: bool := *;
      if !ok {
        failed := true;
        continue;
      }
      Release(s, maps.Value(), ip);
      ghost var m', t := Do(DropIPHost(ip), maps.Value()), maps.trace;
      maps.Perform(DropIPHost(ip));
      AnsweredKeeps(s, m', maps.Value());
      GrewTrans(old(maps.trace), t, maps.trace);
    }
  }

  // pruneUpstreams: the stale entries found are deleted one by one. A DNS answer in between adds none:
  // it records under fake IPs handed out now, and those are not stale (or not planned at all).
  method PruneUpstreams(maps: SharedMaps, ghost s: Sync, existing: map<IP, Entry>, entries: map<IP, Entry>)
    requires s.existing == existing && s.plan == entries && Midway(s, maps.Value())
    requires maps.Logged()
    modifies maps
    ensures Midway(s, maps.Value()) && Pruned(s, maps.Value()) && Grew(old(maps.trace), maps.trace) && maps.Logged()
    ensures maps.hostIP == old(maps.hostIP) && maps.ipHost == old(maps.ipHost)
    ensures forall ip :: ip in old(maps.upstream) && ip in entries && ip in existing && existing[ip].host == entries[ip].host ==> ip in maps.upstream
  {
    hide Resolvable, Owned, ZeroFree, Stable, Between;
    var stale := set ip | ip in maps.upstream && (ip !in entries || ip !in existing || existing[ip].host != entries[ip].host);
    while stale != {}
      invariant Midway(s, maps.Value()) && Grew(old(maps.trace), maps.trace) && maps.Logged()
      invariant maps.hostIP == old(maps.hostIP) && maps.ipHost == old(maps.ipHost)
      invariant forall ip :: ip in maps.upstream && ip in s.plan && Stale(s, ip) ==> ip in stale
      invariant forall ip :: ip in stale ==> ip !in entries || ip !in existing || existing[ip].host != entries[ip].host
      invariant forall ip :: ip in old(maps.upstream) && ip in entries && ip in existing && existing[ip].host == entries[ip].host ==> ip in maps.upstream
      decreases |stale|
    {
      hide Stale;
      var ip :| ip in stale;
      stale := stale - {ip};
      Prune(s, maps.Value(), ip);
      ghost var m', t := Do(DropUpstream(ip), maps.Value()), maps.trace;
      maps.Perform(DropUpstream(ip));
      AnsweredKeeps(s, m', maps.Value());
      NoNewStale(s, m', maps.Value());
      GrewTrans(old(maps.trace), t, maps.trace);
    }
  }

  lemma NoNewStale(s: Sync, m: Maps, m': Maps)
    requires Safe(m) && Stable(s, m) && Between(s, m) && Answered(m, m')
    ensures forall ip :: ip in m'.upstream && ip in s.plan && Stale(s, ip) ==> ip in m.upstream
  {
    forall ip | ip in m'.upstream && ip in s.plan && ip !in m.upstream ensures !Stale(s, ip) {
      assert Handed(m, ip);
      var h :| h in m.hostIP && (ip == FakeOf(m.hostIP[h], true) || ip == FakeOf(m.hostIP[h], false));
      assert HasFake(m.hostIP[h], ip);
    }
  }

  // A host table whose fake IPs' reservations are written, or still to come.
  ghost predicate Backed(m: Maps, h4: map<Host, Addr>, h6: map<Host, Addr>, todo: set<IP>) {
    && (forall h :: h in h4 && V4(h4[h]) !in todo ==> V4(h4[h]) in m.ipHost && m.ipHost[V4(h4[h])] == Active(h))
    && (forall h :: h in h6 && V6(h6[h]) !in todo ==> V6(h6[h]) in m.ipHost && m.ipHost[V6(h6[h])] == Active(h))
  }

  // The reservations written so far, when none failed.
  ghost predicate Written(s: Sync, m: Maps, start: map<IP, Entry>, todo: set<IP>) {
    && (forall ip :: ip in m.ipHost ==> ip in start || ip in s.plan)
    && (forall ip :: ip in s.plan && ip !in todo ==> ip in m.ipHost && m.ipHost[ip] == s.plan[ip])
  }

  // Write the reservations; a host whose reservation could not be written loses that fake IP.
  method ReserveAll(maps: SharedMaps, ghost s: Sync, existing: map<IP, Entry>, entries: map<IP, Entry>,
                    hosts4: map<Host, Addr>, hosts6: map<Host, Addr>)
    returns (failed: bool, h4: map<Host, Addr>, h6: map<Host, Addr>)
    requires s.existing == existing && s.plan == entries && FromPlan(s, hosts4, hosts6)
    requires Midway(s, maps.Value()) && Pruned(s, maps.Value())
    requires maps.Logged()
    modifies maps
    ensures old(maps.upstream).Keys <= maps.upstream.Keys
    ensures Midway(s, maps.Value()) && Grew(old(maps.trace), maps.trace) && maps.Logged() && maps.hostIP == old(maps.hostIP)
    ensures FromPlan(s, h4, h6) && Backed(maps.Value(), h4, h6, {})
    ensures !failed ==> h4 == hosts4 && h6 == hosts6 && Written(s, maps.Value(), old(maps.ipHost), {})
  {
    hide Resolvable, Owned, ZeroFree, Stable, Between, Pruned;
    failed, h4, h6 := false, hosts4, hosts6;
    var todo := entries.Keys;
    while todo != {}
      invariant old(maps.upstream).Keys <= maps.upstream.Keys
      invariant todo <= entries.Keys && Midway(s, maps.Value()) && Pruned(s, maps.Value())
      invariant Grew(old(maps.trace), maps.trace) && maps.Logged() && maps.hostIP == old(maps.hostIP)
      invariant FromPlan(s, h4, h6) && Backed(maps.Value(), h4, h6, todo)
      invariant !failed ==> h4 == hosts4 && h6 == hosts6 && Written(s, maps.Value(), old(maps.ipHost), todo)
      decreases |todo|
    {
      hide FromPlan, Backed, Written;
      var ip :| ip in todo;
      var e := entries[ip];
      ghost var before, was, t := maps.Value(), todo, maps.trace;
      todo := todo - {ip};
      if ip in existing && existing[ip] == e {
        SkipBacked(s, before, h4, h6, was, ip, old(maps.ipHost));
        continue;
      }
      var ok: bool := *;
      if ok {
        Reserve(s, before, ip);
        WriteBacked(s, before, h4, h6, was, ip, old(maps.ipHost));
        ghost var m' := Do(PutIPHost(ip, e), before);
        maps.Perform(PutIPHost(ip, e));
        AnsweredKeeps(s, m', maps.Value());
        SameBacked(s, m', maps.Value(), h4, h6, todo, old(maps.ipHost));
        GrewTrans(old(maps.trace), t, maps.trace);
      } else {
        failed := true;
        LoseBacked(s, before, h4, h6, was, ip);
        if ip.V4? {
          h4 := h4 - {e.host};
        } else {
          h6 := h6 - {e.host};
        }
      }
    }
  }

  lemma SkipBacked(s: Sync, m: Maps, h4: map<Host, Addr>, h6: map<Host, Addr>, todo: set<IP>, ip: IP, start: map<IP, Entry>)
    requires Backed(m, h4, h6, todo) && FromPlan(s, h4, h6) && Between(s, m)
    requires ip in s.existing && ip in s.plan && s.existing[ip] == s.plan[ip]
    ensures Backed(m, h4, h6, todo - {ip})
    ensures Written(s, m, start, todo) ==> Written(s, m, start, todo - {ip})
  {
  }

  lemma WriteBacked(s: Sync, m: Maps, h4: map<Host, Addr>, h6: map<Host, Addr>, todo: set<IP>, ip: IP, start: map<IP, Entry>)
    requires Backed(m, h4, h6, todo) && FromPlan(s, h4, h6) && ip in s.plan
    ensures Backed(m.(ipHost := m.ipHost[ip := s.plan[ip]]), h4, h6, todo - {ip})
    ensures Written(s, m, start, todo) ==> Written(s, m.(ipHost := m.ipHost[ip := s.plan[ip]]), start, todo - {ip})
  {
  }

  lemma LoseBacked(s: Sync, m: Maps, h4: map<Host, Addr>, h6: map<Host, Addr>, todo: set<IP>, ip: IP)
    requires Backed(m, h4, h6, todo) && FromPlan(s, h4, h6) && ip in s.plan
    ensures var h := s.plan[ip].host;
            var (k4, k6) := if ip.V4? then (h4 - {h}, h6) else (h4, h6 - {h});
            Backed(m, k4, k6, todo - {ip}) && FromPlan(s, k4, k6)
  {
  }

  lemma SameBacked(s: Sync, m: Maps, m': Maps, h4: map<Host, Addr>, h6: map<Host, Addr>, todo: set<IP>, start: map<IP, Entry>)
    requires Backed(m, h4, h6, todo) && Answered(m, m')
    ensures Backed(m', h4, h6, todo)
    ensures Written(s, m, start, todo) ==> Written(s, m', start, todo)
  {
  }

  // Which hosts have an entry while the entries are written.
  ghost predicate HalfAssigned(hostIP: map<Host, HostVal>, kept: map<Host, HostVal>, want: map<Host, HostVal>, todo: set<Host>, failed: bool) {
    && (forall h :: h in hostIP ==> h in want || h in kept)
    && (forall h :: h in kept ==> h in hostIP)
    && (forall h :: h in todo && h in kept ==> hostIP[h] == kept[h])
    && (!failed ==> forall h :: h in want && h !in todo ==> h in hostIP && hostIP[h] == want[h])
  }

  // Hand the hosts their fake IPs.
  method AssignAll(maps: SharedMaps, current: map<Host, HostVal>, dropped: set<Host>, want: map<Host, HostVal>)
    returns (failed: bool)
    requires Safe(maps.Value()) && maps.hostIP == current - dropped
    requires forall h, ip :: h in want && HasFake(want[h], ip) ==> ip in maps.ipHost && maps.ipHost[ip].host == h
    requires maps.Logged()
    modifies maps
    ensures old(maps.upstream).Keys <= maps.upstream.Keys
    ensures Safe(maps.Value()) && Grew(old(maps.trace), maps.trace) && maps.Logged() && maps.ipHost == old(maps.ipHost)
    ensures HalfAssigned(maps.hostIP, current - dropped, want, {}, failed)
  {
    hide Resolvable, Owned, ZeroFree, HasFake;
    failed := false;
    var todo := want.Keys;
    ghost var kept := current - dropped;
    while todo != {}
      invariant old(maps.upstream).Keys <= maps.upstream.Keys
      invariant todo <= want.Keys && Safe(maps.Value()) && Grew(old(maps.trace), maps.trace) && maps.Logged()
      invariant maps.ipHost == old(maps.ipHost)
      invariant HalfAssigned(maps.hostIP, kept, want, todo, failed)
      decreases |todo|
    {
      var host :| host in todo;
      todo := todo - {host};
      if host in current && host !in dropped && current[host] == want[host] {
        continue;
      }
      var ok: bool := *;
      if !ok {
        failed := true;
        continue;
      }
      Assign(maps.Value(), host, want[host]);
      ghost var t := maps.trace;
      maps.Perform(PutHostIP(host, want[host]));
      GrewTrans(old(maps.trace), t, maps.trace);
    }
  }

  // Hosts kept at first whose reservations could not be written.
  method DropUnwritten(maps: SharedMaps, current: map<Host, HostVal>, dropped: set<Host>, want: map<Host, HostVal>)
    returns (failed: bool)
    requires Safe(maps.Value())
    requires forall h :: h in maps.hostIP ==> h in want || (h in current && h !in dropped)
    requires maps.Logged()
    modifies maps
    ensures old(maps.upstream).Keys <= maps.upstream.Keys
    ensures Safe(maps.Value()) && Grew(old(maps.trace), maps.trace) && maps.Logged() && maps.ipHost == old(maps.ipHost)
    ensures forall h :: h in want && h in old(maps.hostIP) ==> h in maps.hostIP && maps.hostIP[h] == old(maps.hostIP)[h]
    ensures !failed ==> forall h :: h in maps.hostIP ==> h in want
  {
    hide Resolvable, Owned, ZeroFree;
    failed := false;
    var todo := current.Keys;
    while todo != {}
      invariant old(maps.upstream).Keys <= maps.upstream.Keys
      invariant todo <= current.Keys && Safe(maps.Value()) && Grew(old(maps.trace), maps.trace) && maps.Logged()
      invariant maps.ipHost == old(maps.ipHost)
      invariant forall h :: h in want && h in old(maps.hostIP) ==> h in maps.hostIP && maps.hostIP[h] == old(maps.hostIP)[h]
      invariant forall h :: h in maps.hostIP ==> h in old(maps.hostIP)
      invariant !failed ==> forall h :: h in maps.hostIP ==> h in want || h in todo
      decreases |todo|
    {
      var host :| host in todo;
      todo := todo - {host};
      if host in want || host in dropped {
        continue;
      }
      var ok: bool := *;
      if !ok {
        failed := true;
        continue;
      }
      DropHost(maps.Value(), host);
      ghost var t := maps.trace;
      maps.Perform(DropHostIP(host));
      GrewTrans(old(maps.trace), t, maps.trace);
    }
  }

  lemma BackedGives(m: Maps, h4: map<Host, Addr>, h6: map<Host, Addr>)
    requires Backed(m, h4, h6, {})
    ensures forall h, ip :: h in HostVals(h4, h6) && HasFake(HostVals(h4, h6)[h], ip) ==> ip in m.ipHost && m.ipHost[ip].host == h
  {
  }

  // Nothing failed: the reservations are the plan's and the hosts' entries those wanted.
  lemma AllWritten(s: Sync, m: Maps)
    requires Written(s, m, Remaining(s.existing, s.plan, {}), {})
    ensures m.ipHost == s.plan
  {
  }

  lemma KeptAreWanted(current: map<Host, HostVal>, want: map<Host, HostVal>)
    ensures forall h :: h in current - NotKept(current, want, {}) ==> h in want && !Drops(current[h], want[h])
  {
  }

  // ---- What a sync that succeeded leaves, in its inputs' own terms ----

  // The fake addresses of one family that are reserved.
  function ReservedOf(ipHost: map<IP, Entry>, six: bool): (ips: set<IP>) {
    set ip | ip in ipHost && ip.V6? == six
  }

  // Every reservation has a host, lies in its family's range, and is active for a watched host or retired for less than
  // 24 hours.
  ghost predicate ReservedRightly(rs: Ranges, watched: set<Host>, now: int, ipHost: map<IP, Entry>)
    requires rs.Valid()
  {
    forall ip :: ip in ipHost ==>
      && ipHost[ip].host != ""
      && (ip.V4? ==> rs.r4.base <= ip.n < rs.r4.base + rs.r4.size)
      && (ip.V6? ==> rs.r6.Range? && rs.r6.base <= ip.n < rs.r6.base + rs.r6.size)
      && (if ipHost[ip].Active? then ipHost[ip].host in watched else now - ipHost[ip].at < 86400)
  }

  // A host has a fake address exactly if it is the one reserved, and active, for it; and every host that has one is
  // watched.
  ghost predicate HandedOutExactly(watched: set<Host>, ipHost: map<IP, Entry>, hostIP: map<Host, HostVal>) {
    && (forall h, n :: n != 0 ==> (h in hostIP && hostIP[h].ip4 == n <==> V4(n) in ipHost && ipHost[V4(n)] == Active(h)))
    && (forall h, n :: n != 0 ==> (h in hostIP && hostIP[h].ip6 == n <==> V6(n) in ipHost && ipHost[V6(n)] == Active(h)))
    && (forall h :: h in hostIP ==> h in watched && h != "" && (hostIP[h].ip4 != 0 || hostIP[h].ip6 != 0))
  }

  // Host h goes without an address of the family: its share of the map is full of active reservations.
  ghost predicate Full(ipHost: map<IP, Entry>, six: bool, share: int) {
    |ReservedOf(ipHost, six)| >= share && forall ip :: ip in ipHost && ip.V6? == six ==> ipHost[ip].Active?
  }

  // Host h has an address of each family there is a range for, unless the family's share is full: all of the map, or with
  // IPv6 half of it for each.
  ghost predicate ServesAt(rs: Ranges, capacity: nat, ipHost: map<IP, Entry>, hostIP: map<Host, HostVal>, h: Host) {
    var share4 := if rs.r6.Range? then capacity / 2 else capacity;
    && ((h in hostIP && hostIP[h].ip4 != 0) || Full(ipHost, false, share4))
    && (rs.r6.Range? ==> (h in hostIP && hostIP[h].ip6 != 0) || Full(ipHost, true, capacity - share4))
  }

  ghost predicate Serves(rs: Ranges, watched: set<Host>, capacity: nat, ipHost: map<IP, Entry>, hostIP: map<Host, HostVal>) {
    forall h :: h in watched && h != "" ==> ServesAt(rs, capacity, ipHost, hostIP, h)
  }

  // A reservation that still counts stays its host's, unless the family's share ended up full.
  ghost predicate StaysAt(rs: Ranges, capacity: nat, now: int, before: map<IP, Entry>, ipHost: map<IP, Entry>, ip: IP)
    requires rs.Valid() && ip in before
  {
    before[ip].host != "" && (before[ip].Retired? ==> now - before[ip].at < 86400)
    && (ip.V4? ==> rs.r4.base <= ip.n < rs.r4.base + rs.r4.size)
    && (ip.V6? ==> rs.r6.Range? && rs.r6.base <= ip.n < rs.r6.base + rs.r6.size) ==>
      var share4 := if rs.r6.Range? then capacity / 2 else capacity;
      || (ip in ipHost && ipHost[ip].host == before[ip].host)
      || |ReservedOf(ipHost, ip.V6?)| >= if ip.V4? then share4 else capacity - share4
  }

  ghost predicate StaysReserved(rs: Ranges, capacity: nat, now: int, before: map<IP, Entry>, ipHost: map<IP, Entry>)
    requires rs.Valid()
  {
    forall ip :: ip in before ==> StaysAt(rs, capacity, now, before, ipHost, ip)
  }

  // A family goes beyond its share only with active reservations there were before.
  ghost predicate Within(before: map<IP, Entry>, ipHost: map<IP, Entry>, six: bool, share: int) {
    |ReservedOf(ipHost, six)| > share ==>
      forall ip :: ip in ipHost && ip.V6? == six ==> ipHost[ip].Active? && ip in before && before[ip].host == ipHost[ip].host
  }

  ghost predicate WithinShares(rs: Ranges, capacity: nat, before: map<IP, Entry>, ipHost: map<IP, Entry>) {
    var share4 := if rs.r6.Range? then capacity / 2 else capacity;
    Within(before, ipHost, false, share4) && Within(before, ipHost, true, capacity - share4)
  }

  lemma FamilyCount(entries: map<IP, Entry>, e: map<Addr, Entry>, six: bool)
    requires forall n :: IPOf(n, six) in entries <==> n in e
    ensures |ReservedOf(entries, six)| == |e|
  {
    assert |e.Keys| == |e|;
    forall ip ensures ip in ReservedOf(entries, six) <==> ip.V6? == six && ip.n in e.Keys {
      assert ip.V6? == six ==> ip == IPOf(ip.n, six);
    }
    ImageCount(e.Keys, ReservedOf(entries, six), six);
  }

  lemma {:induction false} ImageCount(ns: set<nat>, ips: set<IP>, six: bool)
    requires forall ip :: ip in ips <==> ip.V6? == six && ip.n in ns
    ensures |ips| == |ns|
    decreases |ns|
  {
    if ns == {} {
      assert ips == {};
    } else {
      var n :| n in ns;
      assert IPOf(n, six) in ips;
      ImageCount(ns - {n}, ips - {IPOf(n, six)}, six);
    }
  }

  // The plan of one family, of the reservations e of it there were.
  ghost predicate FamilyPlanned(p: Plan, r: Range, watched: set<Host>, now: int) {
    && 0 !in p.entries
    && (forall ip :: ip in p.entries ==>
          && p.entries[ip].host != "" && r.Range? && r.base <= ip < r.base + r.size
          && (if p.entries[ip].Active? then p.entries[ip].host in watched else now - p.entries[ip].at < 86400))
    && (forall h, n :: h in p.hosts && p.hosts[h] == n <==> n in p.entries && p.entries[n] == Active(h))
    && (forall h :: h in p.hosts ==> h in watched && h != "")
  }

  ghost predicate FamilyServed(p: Plan, r: Range, watched: set<Host>, e: map<Addr, Entry>, now: int, share: int)
    requires r.Range?
  {
    && (forall h :: h in watched && h != "" ==>
          h in p.hosts || (|p.entries| >= share && forall n :: n in p.entries ==> p.entries[n].Active?))
    && (forall n :: n in e && e[n].host != "" && r.base <= n < r.base + r.size && (e[n].Retired? ==> now - e[n].at < 86400) ==>
          (n in p.entries && p.entries[n].host == e[n].host) || |p.entries| >= share)
  }

  lemma FamilyMeans(r: Range, hash: Host -> nat, watched: set<Host>, e: map<Addr, Entry>, now: int, share: nat)
    requires (watched != {} ==> r.Range? && r.Valid()) && 0 !in e
    ensures FamilyPlanned(PlanOf(r, hash, watched, e, now, share), r, watched, now)
  {
    hide PlanOf, Sound, Continues, Settle, FamilyPlanned;
    var p := PlanOf(r, hash, watched, e, now, share);
    PlanSound(r, hash, watched, e, now, share);
    PlanNonZero(r, hash, watched, e, now, share);
    SoundIsPlanned(p, r, watched, now, share);
  }

  lemma SoundIsPlanned(p: Plan, r: Range, watched: set<Host>, now: int, share: nat)
    requires Sound(p, r, watched, now, share) && 0 !in p.entries
    ensures FamilyPlanned(p, r, watched, now)
  {
    NothingStale(p, r, watched, now, share);
    SoundGives(p, r, watched, now, share);
    hide Sound;
  }

  lemma FamilyServes(r: Range, hash: Host -> nat, watched: set<Host>, e: map<Addr, Entry>, now: int, share: nat)
    requires r.Range? && r.Valid() && |e| + |watched| < 8128
    ensures FamilyServed(PlanOf(r, hash, watched, e, now, share), r, watched, e, now, share)
  {
    PlanServesExactly(r, hash, watched, e, now, share);
    PlanHoldsExactly(r, hash, watched, e, now, share);
    var p := PlanOf(r, hash, watched, e, now, share);
    hide PlanOf;
    if p.evicted == [] {
      forall n | n in e && e[n].host != "" && r.base <= n < r.base + r.size && (e[n].Retired? ==> now - e[n].at < 86400)
        ensures n in p.entries && p.entries[n].host == e[n].host
      {
      }
    }
  }

  // The reservations and the hosts' addresses, of two plans.
  ghost predicate OfPlans(ipHost: map<IP, Entry>, hostIP: map<Host, HostVal>, p4: Plan, p6: Plan) {
    && (forall n :: V4(n) in ipHost <==> n in p4.entries) && (forall n :: n in p4.entries ==> ipHost[V4(n)] == p4.entries[n])
    && (forall n :: V6(n) in ipHost <==> n in p6.entries) && (forall n :: n in p6.entries ==> ipHost[V6(n)] == p6.entries[n])
    && hostIP == HostVals(p4.hosts, p6.hosts)
  }

  lemma RightlyOfPlans(rs: Ranges, watched: set<Host>, now: int, ipHost: map<IP, Entry>, hostIP: map<Host, HostVal>, p4: Plan, p6: Plan)
    requires rs.Valid() && OfPlans(ipHost, hostIP, p4, p6)
    requires FamilyPlanned(p4, rs.r4, watched, now) && FamilyPlanned(p6, rs.r6, if rs.r6.Range? then watched else {}, now)
    ensures ReservedRightly(rs, watched, now, ipHost)
  {
    forall ip | ip in ipHost ensures if ip.V4? then ip.n in p4.entries else ip.n in p6.entries {
      assert ip == V4(ip.n) || ip == V6(ip.n);
    }
  }

  lemma HandedOutOfPlans(rs: Ranges, watched: set<Host>, now: int, ipHost: map<IP, Entry>, hostIP: map<Host, HostVal>, p4: Plan, p6: Plan)
    requires OfPlans(ipHost, hostIP, p4, p6)
    requires FamilyPlanned(p4, rs.r4, watched, now) && FamilyPlanned(p6, rs.r6, if rs.r6.Range? then watched else {}, now)
    ensures HandedOutExactly(watched, ipHost, hostIP)
  {
    forall h | h in hostIP
      ensures hostIP[h].ip4 == (if h in p4.hosts then p4.hosts[h] else 0) && hostIP[h].ip6 == (if h in p6.hosts then p6.hosts[h] else 0)
      ensures h in p4.hosts || h in p6.hosts
      ensures (h in p4.hosts ==> p4.hosts[h] != 0) && (h in p6.hosts ==> p6.hosts[h] != 0)
    {
    }
    forall h ensures h in p4.hosts || h in p6.hosts ==> h in hostIP {
    }
    hide HostVals;
  }

  lemma ServesOfPlans(rs: Ranges, watched: set<Host>, now: int, capacity: nat,
                      ipHost: map<IP, Entry>, hostIP: map<Host, HostVal>, p4: Plan, p6: Plan, e4: map<Addr, Entry>, e6: map<Addr, Entry>)
    requires rs.Valid() && OfPlans(ipHost, hostIP, p4, p6)
    requires FamilyPlanned(p4, rs.r4, watched, now) && FamilyPlanned(p6, rs.r6, if rs.r6.Range? then watched else {}, now)
    requires var share4 := if rs.r6.Range? then capacity / 2 else capacity;
             && FamilyServed(p4, rs.r4, watched, e4, now, share4)
             && (rs.r6.Range? ==> FamilyServed(p6, rs.r6, watched, e6, now, capacity - share4))
    ensures Serves(rs, watched, capacity, ipHost, hostIP)
  {
    hide FamilyPlanned, FamilyServed, OfPlans, ServesAt;
    forall h | h in watched && h != "" ensures ServesAt(rs, capacity, ipHost, hostIP, h) {
      ServesOneOf(rs, watched, now, capacity, ipHost, hostIP, p4, p6, e4, e6, h);
    }
  }

  lemma ServesOneOf(rs: Ranges, watched: set<Host>, now: int, capacity: nat, ipHost: map<IP, Entry>, hostIP: map<Host, HostVal>,
                    p4: Plan, p6: Plan, e4: map<Addr, Entry>, e6: map<Addr, Entry>, h: Host)
    requires rs.Valid() && OfPlans(ipHost, hostIP, p4, p6) && h in watched && h != ""
    requires FamilyPlanned(p4, rs.r4, watched, now) && FamilyPlanned(p6, rs.r6, if rs.r6.Range? then watched else {}, now)
    requires var share4 := if rs.r6.Range? then capacity / 2 else capacity;
             && FamilyServed(p4, rs.r4, watched, e4, now, share4)
             && (rs.r6.Range? ==> FamilyServed(p6, rs.r6, watched, e6, now, capacity - share4))
    ensures ServesAt(rs, capacity, ipHost, hostIP, h)
  {
    hide FamilyPlanned, FamilyServed, Full, OfPlans, AllActive, ReservedOf;
    var share4 := if rs.r6.Range? then capacity / 2 else capacity;
    FullOfPlans(ipHost, hostIP, p4, p6, share4, capacity - share4);
    HasNonZero(rs, watched, now, p4, p6);
    ValOf(ipHost, hostIP, p4, p6, h);
    ServedHost(p4, rs.r4, watched, e4, now, share4, h);
    if rs.r6.Range? {
      ServedHost(p6, rs.r6, watched, e6, now, capacity - share4, h);
    }
  }

  lemma ValOf(ipHost: map<IP, Entry>, hostIP: map<Host, HostVal>, p4: Plan, p6: Plan, h: Host)
    requires OfPlans(ipHost, hostIP, p4, p6)
    ensures h in hostIP <==> h in p4.hosts || h in p6.hosts
    ensures h in p4.hosts ==> hostIP[h].ip4 == p4.hosts[h]
    ensures h in p6.hosts ==> hostIP[h].ip6 == p6.hosts[h]
  {
  }

  predicate AllActive(entries: map<Addr, Entry>) {
    forall n :: n in entries ==> entries[n].Active?
  }

  lemma ServedHost(p: Plan, r: Range, watched: set<Host>, e: map<Addr, Entry>, now: int, share: int, h: Host)
    requires r.Range? && FamilyServed(p, r, watched, e, now, share) && h in watched && h != ""
    ensures h in p.hosts || (|p.entries| >= share && AllActive(p.entries))
  {
  }

  lemma FullOfPlans(ipHost: map<IP, Entry>, hostIP: map<Host, HostVal>, p4: Plan, p6: Plan, share4: int, share6: int)
    requires OfPlans(ipHost, hostIP, p4, p6)
    ensures |ReservedOf(ipHost, false)| == |p4.entries| && |ReservedOf(ipHost, true)| == |p6.entries|
    ensures |p4.entries| >= share4 && AllActive(p4.entries) ==> Full(ipHost, false, share4)
    ensures |p6.entries| >= share6 && AllActive(p6.entries) ==> Full(ipHost, true, share6)
  {
    hide HostVals;
    FamilyCount(ipHost, p4.entries, false);
    FamilyCount(ipHost, p6.entries, true);
    forall ip | ip in ipHost ensures if ip.V4? then ip.n in p4.entries && ipHost[ip] == p4.entries[ip.n] else ip.n in p6.entries && ipHost[ip] == p6.entries[ip.n] {
      assert ip == (if ip.V4? then V4(ip.n) else V6(ip.n));
    }
  }

  lemma StaysOfPlans(rs: Ranges, watched: set<Host>, before: map<IP, Entry>, now: int, capacity: nat,
                     ipHost: map<IP, Entry>, hostIP: map<Host, HostVal>, p4: Plan, p6: Plan)
    requires rs.Valid() && OfPlans(ipHost, hostIP, p4, p6)
    requires var share4 := if rs.r6.Range? then capacity / 2 else capacity;
             && FamilyServed(p4, rs.r4, watched, FamilyOf(before, false), now, share4)
             && (rs.r6.Range? ==> FamilyServed(p6, rs.r6, watched, FamilyOf(before, true), now, capacity - share4))
    ensures StaysReserved(rs, capacity, now, before, ipHost)
  {
    hide OfPlans, FamilyServed, FamilyOf, StaysAt;
    forall ip | ip in before ensures StaysAt(rs, capacity, now, before, ipHost, ip) {
      StaysOneOf(rs, watched, before, now, capacity, ipHost, hostIP, p4, p6, ip);
    }
  }

  lemma StaysOneOf(rs: Ranges, watched: set<Host>, before: map<IP, Entry>, now: int, capacity: nat,
                   ipHost: map<IP, Entry>, hostIP: map<Host, HostVal>, p4: Plan, p6: Plan, ip: IP)
    requires rs.Valid() && OfPlans(ipHost, hostIP, p4, p6) && ip in before
    requires var share4 := if rs.r6.Range? then capacity / 2 else capacity;
             && FamilyServed(p4, rs.r4, watched, FamilyOf(before, false), now, share4)
             && (rs.r6.Range? ==> FamilyServed(p6, rs.r6, watched, FamilyOf(before, true), now, capacity - share4))
    ensures StaysAt(rs, capacity, now, before, ipHost, ip)
  {
    hide OfPlans, FamilyServed, FamilyOf, ReservedOf, Full;
    var share4 := if rs.r6.Range? then capacity / 2 else capacity;
    FullOfPlans(ipHost, hostIP, p4, p6, share4, capacity - share4);
    InPlans(ipHost, hostIP, p4, p6, ip);
    if before[ip].host != "" && (before[ip].Retired? ==> now - before[ip].at < 86400) {
      if ip.V4? && rs.r4.base <= ip.n < rs.r4.base + rs.r4.size {
        StaysOne(rs.r4, watched, before, now, share4, p4, ip);
      }
      if ip.V6? && rs.r6.Range? && rs.r6.base <= ip.n < rs.r6.base + rs.r6.size {
        StaysOne(rs.r6, watched, before, now, capacity - share4, p6, ip);
      }
    }
  }

  lemma StaysOne(r: Range, watched: set<Host>, before: map<IP, Entry>, now: int, share: int, p: Plan, ip: IP)
    requires r.Range? && ip in before && before[ip].host != "" && r.base <= ip.n < r.base + r.size
    requires before[ip].Retired? ==> now - before[ip].at < 86400
    requires FamilyServed(p, r, watched, FamilyOf(before, ip.V6?), now, share)
    ensures (ip.n in p.entries && p.entries[ip.n].host == before[ip].host) || |p.entries| >= share
  {
    assert ip.n in FamilyOf(before, ip.V6?) && FamilyOf(before, ip.V6?)[ip.n] == before[ip];
    hide FamilyOf;
  }

  lemma InPlans(ipHost: map<IP, Entry>, hostIP: map<Host, HostVal>, p4: Plan, p6: Plan, ip: IP)
    requires OfPlans(ipHost, hostIP, p4, p6)
    ensures ip in ipHost <==> if ip.V4? then ip.n in p4.entries else ip.n in p6.entries
    ensures ip in ipHost ==> ipHost[ip] == if ip.V4? then p4.entries[ip.n] else p6.entries[ip.n]
  {
    hide HostVals;
    assert ip == (if ip.V4? then V4(ip.n) else V6(ip.n));
  }

  lemma HasNonZero(rs: Ranges, watched: set<Host>, now: int, p4: Plan, p6: Plan)
    requires FamilyPlanned(p4, rs.r4, watched, now) && FamilyPlanned(p6, rs.r6, if rs.r6.Range? then watched else {}, now)
    ensures forall h :: h in p4.hosts ==> p4.hosts[h] != 0
    ensures forall h :: h in p6.hosts ==> p6.hosts[h] != 0
  {
  }

  lemma JoinOfPlans(p4: Plan, p6: Plan)
    ensures OfPlans(Join(p4.entries, p6.entries), HostVals(p4.hosts, p6.hosts), p4, p6)
  {
    hide Join, HostVals;
    var all := Join(p4.entries, p6.entries);
    forall ip ensures ip in all <==> if ip.V4? then ip.n in p4.entries else ip.n in p6.entries {
      InJoin(p4.entries, p6.entries, ip);
    }
    forall ip | ip in all ensures all[ip] == if ip.V4? then p4.entries[ip.n] else p6.entries[ip.n] {
      InJoin(p4.entries, p6.entries, ip);
    }
  }

  ghost predicate FamilyWithin(p: Plan, e: map<Addr, Entry>, share: int) {
    |p.entries| > share ==> forall n :: n in p.entries ==> p.entries[n].Active? && n in e && e[n].host == p.entries[n].host
  }

  lemma WithinOfPlans(rs: Ranges, before: map<IP, Entry>, capacity: nat, ipHost: map<IP, Entry>, hostIP: map<Host, HostVal>, p4: Plan, p6: Plan)
    requires OfPlans(ipHost, hostIP, p4, p6)
    requires var share4 := if rs.r6.Range? then capacity / 2 else capacity;
             FamilyWithin(p4, FamilyOf(before, false), share4) && FamilyWithin(p6, FamilyOf(before, true), capacity - share4)
    ensures WithinShares(rs, capacity, before, ipHost)
  {
    hide OfPlans, FamilyWithin, FamilyOf, Within, ReservedOf, Full, AllActive;
    var share4 := if rs.r6.Range? then capacity / 2 else capacity;
    FullOfPlans(ipHost, hostIP, p4, p6, share4, capacity - share4);
    WithinOne(before, ipHost, hostIP, p4, p6, false, share4);
    WithinOne(before, ipHost, hostIP, p4, p6, true, capacity - share4);
  }

  lemma WithinOne(before: map<IP, Entry>, ipHost: map<IP, Entry>, hostIP: map<Host, HostVal>, p4: Plan, p6: Plan, six: bool, share: int)
    requires OfPlans(ipHost, hostIP, p4, p6) && FamilyWithin(if six then p6 else p4, FamilyOf(before, six), share)
    requires |ReservedOf(ipHost, six)| == |(if six then p6 else p4).entries|
    ensures Within(before, ipHost, six, share)
  {
    hide OfPlans, ReservedOf, FamilyWithin, FamilyOf;
    var p := if six then p6 else p4;
    if |p.entries| > share {
      forall ip | ip in ipHost && ip.V6? == six ensures ipHost[ip].Active? && ip in before && before[ip].host == ipHost[ip].host {
        InPlans(ipHost, hostIP, p4, p6, ip);
        OldOfFamily(before, p, six, share, ip);
      }
    }
  }

  lemma OldOfFamily(before: map<IP, Entry>, p: Plan, six: bool, share: int, ip: IP)
    requires FamilyWithin(p, FamilyOf(before, six), share) && |p.entries| > share && ip.n in p.entries && ip.V6? == six
    ensures p.entries[ip.n].Active? && ip in before && before[ip].host == p.entries[ip.n].host
  {
    assert ip.n in FamilyOf(before, six) && ip == (if six then V6(ip.n) else V4(ip.n));
  }

  // Both families together.
  lemma PlansMean(rs: Ranges, watched: set<Host>, before: map<IP, Entry>, now: int, capacity: nat,
                  ipHost: map<IP, Entry>, hostIP: map<Host, HostVal>, p4: Plan, p6: Plan, room: bool)
    requires rs.Valid() && OfPlans(ipHost, hostIP, p4, p6)
    requires FamilyPlanned(p4, rs.r4, watched, now) && FamilyPlanned(p6, rs.r6, if rs.r6.Range? then watched else {}, now)
    requires room ==>
               var share4 := if rs.r6.Range? then capacity / 2 else capacity;
               && FamilyServed(p4, rs.r4, watched, FamilyOf(before, false), now, share4)
               && (rs.r6.Range? ==> FamilyServed(p6, rs.r6, watched, FamilyOf(before, true), now, capacity - share4))
    ensures ReservedRightly(rs, watched, now, ipHost) && HandedOutExactly(watched, ipHost, hostIP)
    ensures room ==> Serves(rs, watched, capacity, ipHost, hostIP) && StaysReserved(rs, capacity, now, before, ipHost)
  {
    hide OfPlans, FamilyPlanned, FamilyServed, FamilyOf, Serves, StaysReserved, ReservedRightly, HandedOutExactly;
    RightlyOfPlans(rs, watched, now, ipHost, hostIP, p4, p6);
    HandedOutOfPlans(rs, watched, now, ipHost, hostIP, p4, p6);
    if room {
      ServesOfPlans(rs, watched, now, capacity, ipHost, hostIP, p4, p6, FamilyOf(before, false), FamilyOf(before, true));
      StaysOfPlans(rs, watched, before, now, capacity, ipHost, hostIP, p4, p6);
    }
  }

  lemma SyncMeans(rs: Ranges, hash: Host -> nat, watched: set<Host>, before: map<IP, Entry>, now: int, capacity: nat,
                  ipHost: map<IP, Entry>, hostIP: map<Host, HostVal>)
    requires rs.Valid() && ZeroFree(before)
    requires ipHost == Join(Plan4(rs, hash, watched, before, now, capacity).entries, Plan6(rs, hash, watched, before, now, capacity).entries)
    requires hostIP == HostVals(Plan4(rs, hash, watched, before, now, capacity).hosts, Plan6(rs, hash, watched, before, now, capacity).hosts)
    ensures ReservedRightly(rs, watched, now, ipHost) && HandedOutExactly(watched, ipHost, hostIP) && WithinShares(rs, capacity, before, ipHost)
    ensures |before| + |watched| < 8128 ==> Serves(rs, watched, capacity, ipHost, hostIP) && StaysReserved(rs, capacity, now, before, ipHost)
  {
    hide PlanOf, FamilyOf, FamilyPlanned, FamilyServed, Join, HostVals, OfPlans, ReservedRightly, HandedOutExactly, Serves, StaysReserved, WithinShares;
    var share4 := if rs.r6.Range? then capacity / 2 else capacity;
    var hosts6 := if rs.r6.Range? then watched else {};
    var p4, p6 := Plan4(rs, hash, watched, before, now, capacity), Plan6(rs, hash, watched, before, now, capacity);
    FamilyZeroFree(before);
    FamilySize(before, false);
    FamilySize(before, true);
    FamilyMeans(rs.r4, hash, watched, FamilyOf(before, false), now, share4);
    FamilyMeans(rs.r6, hash, hosts6, FamilyOf(before, true), now, capacity - share4);
    var room := |before| + |watched| < 8128;
    if room {
      FamilyServes(rs.r4, hash, watched, FamilyOf(before, false), now, share4);
      if rs.r6.Range? {
        FamilyServes(rs.r6, hash, watched, FamilyOf(before, true), now, capacity - share4);
      }
    }
    JoinOfPlans(p4, p6);
    PlanWithinCapacity(rs.r4, hash, watched, FamilyOf(before, false), now, share4);
    PlanWithinCapacity(rs.r6, hash, hosts6, FamilyOf(before, true), now, capacity - share4);
    WithinOfPlans(rs, before, capacity, ipHost, hostIP, p4, p6);
    PlansMean(rs, watched, before, now, capacity, ipHost, hostIP, p4, p6, room);
  }

  // A fake address that stays its host's keeps its recorded addresses.
  ghost predicate KeepsUpstreams(before: map<IP, Entry>, after: map<IP, Entry>, had: map<IP, seq<Slot>>, has: map<IP, seq<Slot>>) {
    forall ip :: ip in had && ip in before && ip in after && before[ip].host == after[ip].host ==> ip in has
  }

  // virtualIPAllocator.sync. A delete from vip_ip_host and any write may fail; deletes from vip_host_ip
  // and vip_upstream succeed. DNS answers are handled between any two operations. Whatever happens,
  // every state the maps go through is safe; and when nothing failed they hold the plan.
  method SyncMaps(maps: SharedMaps, watched: set<Host>, now: int, hash: Host -> nat, capacity: nat) returns (failed: bool)
    requires maps.ranges.Valid() && Safe(maps.Value()) && forall h :: hash(h) < TWO64
    requires |maps.ipHost| + |watched| < 0x4000_0000_0000_0000
    requires maps.Logged()
    modifies maps
    ensures Safe(maps.Value()) && Grew(old(maps.trace), maps.trace) && maps.Logged()
    ensures !failed ==> maps.ipHost == Join(Plan4(maps.ranges, hash, watched, old(maps.ipHost), now, capacity).entries,
                                            Plan6(maps.ranges, hash, watched, old(maps.ipHost), now, capacity).entries)
    ensures !failed ==> maps.hostIP == HostVals(Plan4(maps.ranges, hash, watched, old(maps.ipHost), now, capacity).hosts,
                                                Plan6(maps.ranges, hash, watched, old(maps.ipHost), now, capacity).hosts)
    ensures !failed ==> ReservedRightly(maps.ranges, watched, now, maps.ipHost) && HandedOutExactly(watched, maps.ipHost, maps.hostIP)
    ensures !failed ==> WithinShares(maps.ranges, capacity, old(maps.ipHost), maps.ipHost)
    ensures !failed ==> KeepsUpstreams(old(maps.ipHost), maps.ipHost, old(maps.upstream), maps.upstream)
    ensures !failed && |old(maps.ipHost)| + |watched| < 8128 ==>
              && Serves(maps.ranges, watched, capacity, maps.ipHost, maps.hostIP)
              && StaysReserved(maps.ranges, capacity, now, old(maps.ipHost), maps.ipHost)
  {
    hide ReservedRightly, HandedOutExactly, Serves, StaysReserved, WithinShares;
    hide Plan4, Plan6, Inverse, Resolvable, Owned, Stable, Between, Pruned, Join, HostVals, FromPlan, Granted, Backed,
         Written, Remaining, NotKept, HasFake, Drops, Grew, Answered;
    var existing, current := maps.ipHost, maps.hostIP;
    var p4, p6 := PlanVirtualIPRanges(maps.ranges, hash, watched, existing, now, capacity);
    var hosts4, hosts6 := p4.hosts, p6.hosts;
    var entries := Join(p4.entries, p6.entries);
    ghost var s := Sync(existing, current, entries);
    JoinGrants(s, p4.Value(), p6.Value());
    var want := HostVals(hosts4, hosts6);
    HostValsGranted(s, hosts4, hosts6);
    var dropped := DropHosts(maps, current, want);
    KeptAreWanted(current, want);
    DroppedIsStable(s, maps.Value(), want);
    ghost var t1 := maps.trace;
    var failed1 := ReleaseAll(maps, s, existing, entries);
    GrewTrans(old(maps.trace), t1, maps.trace);
    ghost var t2 := maps.trace;
    PruneUpstreams(maps, s, existing, entries);
    GrewTrans(old(maps.trace), t2, maps.trace);
    ghost var t3 := maps.trace;
    var failed2, h4, h6 := ReserveAll(maps, s, existing, entries, hosts4, hosts6);
    GrewTrans(old(maps.trace), t3, maps.trace);
    BackedGives(maps.Value(), h4, h6);
    if !failed1 && !failed2 {
      AllWritten(s, maps.Value());
    }
    ghost var t4 := maps.trace;
    var final := HostVals(h4, h6);
    var failed3 := AssignAll(maps, current, dropped, final);
    GrewTrans(old(maps.trace), t4, maps.trace);
    ghost var t5 := maps.trace;
    var failed4 := DropUnwritten(maps, current, dropped, final);
    GrewTrans(old(maps.trace), t5, maps.trace);
    failed := failed1 || failed2 || failed3 || failed4;
    if !failed {
      SyncMeans(maps.ranges, hash, watched, existing, now, capacity, maps.ipHost, maps.hostIP);
    }
  }
}
