/** planVirtualIPs itself: the loops that build a plan, proved to compute the plan of VirtualIPPlan
    whatever order the maps are visited in. */
module VirtualIPPlanner {
  import opened Arithmetic
  import opened Options
  import opened FreeVirtualIP
  import opened VirtualIPPlan
  import opened VirtualIPPlanMeaning

  class VipPlan {
    var entries: map<Addr, Entry>
    var hosts: map<Host, Addr>
    var evicted: seq<Eviction>
    var unallocated: seq<Host>

    function Value(): (r: Plan)
      reads this
    {
      Plan(entries, hosts, evicted, unallocated)
    }

    constructor ()
      ensures Value() == Plan(map[], map[], [], [])
    {
      entries, hosts, evicted, unallocated := map[], map[], [], [];
    }

    // evictOldestRetired: a pass over the reservations in any order.
    method EvictOldestRetired() returns (ok: bool)
      modifies this
      ensures ok == (old(RetiredIPs(entries)) != {})
      ensures Value() == if ok then Evict(old(Value())) else old(Value())
    {
      var oldest: Option<Addr> := None;
      var todo := entries.Keys;
      while todo != {}
        invariant todo <= entries.Keys
        invariant oldest.None? ==> RetiredIPs(entries) <= todo
        invariant oldest.Some? ==> oldest.value in RetiredIPs(entries) && forall j :: j in RetiredIPs(entries) - todo ==>
                                     GoesBefore(entries[oldest.value].at, oldest.value, entries[j].at, j)
        decreases |todo|
      {
        var ip :| ip in todo;
        todo := todo - {ip};
        var e := entries[ip];
        if e.Active? {
          continue;
        }
        if oldest.None? {
          oldest := Some(ip);
        } else {
          var o := entries[oldest.value];
          if e.at < o.at || (e.at == o.at && ip < oldest.value) {
            oldest := Some(ip);
          }
        }
      }
      if oldest.None? {
        return false;
      }
      OldestUnique(entries, oldest.value);
      evicted := evicted + [Eviction(oldest.value, entries[oldest.value])];
      entries := entries - {oldest.value};
      ok := true;
    }
  }

  lemma OldestUnique(entries: map<Addr, Entry>, ip: Addr)
    requires ip in RetiredIPs(entries)
    requires forall j :: j in RetiredIPs(entries) ==> GoesBefore(entries[ip].at, ip, entries[j].at, j)
    ensures ip == Oldest(entries)
  {
    var o := Oldest(entries);
    assert IsOldest(entries, o) && o in RetiredIPs(entries);
    assert GoesBefore(entries[o].at, o, entries[ip].at, ip);
  }

  // The addresses kept for a host, in increasing order.
  ghost predicate Lists(ips: seq<Addr>, s: set<Addr>) {
    && (forall i, j :: 0 <= i < j < |ips| ==> ips[i] < ips[j])
    && (forall ip :: ip in ips <==> ip in s)
  }

  ghost predicate Grouped(byHost: map<Host, seq<Addr>>, kept: map<Addr, Entry>) {
    && (forall h :: h in byHost ==> byHost[h] != [] && Lists(byHost[h], IPsOf(kept, h)))
    && (forall ip :: ip in kept ==> kept[ip].host in byHost)
  }

  // Keep the reservations that are still valid, in address order, grouped by host.
  method KeepValid(r: Range, existing: map<Addr, Entry>, now: int)
    returns (kept: map<Addr, Entry>, byHost: map<Host, seq<Addr>>)
    ensures kept == KeptEntries(r, existing, now) && Grouped(byHost, kept)
    ensures forall ip :: ip in kept <==> ip in existing && Counts(r, ip, existing[ip], now)
    ensures forall ip :: ip in kept ==> kept[ip] == existing[ip]
  {
    hide Counts;
    KeptCount(r, existing, now);
    kept, byHost := map[], map[];
    var todo := existing.Keys;
    while todo != {}
      invariant todo <= existing.Keys
      invariant kept == HalfKept(r, existing, now, todo) && Grouped(byHost, kept)
      invariant forall ip, t :: ip in kept && t in todo ==> ip < t
      decreases |todo|
    {
      hide Grouped, HalfKept;
      LeastExists(todo);
      var ip :| ip in todo && forall k :: k in todo ==> ip <= k;
      HalfKeptNext(r, existing, now, todo, ip);
      todo := todo - {ip};
      var e := existing[ip];
      var invalid := e.host == "" || !r.Range? || !r.Contains(ip) || (e.Retired? && now - e.at >= RETENTION);
      if !invalid {
        GroupOne(byHost, kept, ip, e);
        byHost := byHost[e.host := (if e.host in byHost then byHost[e.host] else []) + [ip]];
        kept := kept[ip := e];
      }
    }
  }

  lemma KeptCount(r: Range, existing: map<Addr, Entry>, now: int)
    ensures var kept := KeptEntries(r, existing, now);
            && (forall ip :: ip in kept <==> ip in existing && Counts(r, ip, existing[ip], now))
            && (forall ip :: ip in kept ==> kept[ip] == existing[ip])
  {
  }

  ghost function HalfKept(r: Range, existing: map<Addr, Entry>, now: int, todo: set<Addr>): (res: map<Addr, Entry>) {
    map ip | ip in existing && ip !in todo && Kept(r, ip, existing[ip], now) :: existing[ip]
  }

  lemma HalfKeptNext(r: Range, existing: map<Addr, Entry>, now: int, todo: set<Addr>, ip: Addr)
    requires ip in todo && todo <= existing.Keys
    ensures HalfKept(r, existing, now, todo - {ip}) ==
            if Kept(r, ip, existing[ip], now) then HalfKept(r, existing, now, todo)[ip := existing[ip]]
            else HalfKept(r, existing, now, todo)
    ensures ip !in HalfKept(r, existing, now, todo)
  {
  }

  lemma AppendToList(ips: seq<Addr>, s: set<Addr>, ip: Addr)
    requires Lists(ips, s) && forall j :: j in s ==> j < ip
    ensures Lists(ips + [ip], s + {ip})
  {
    var t := ips + [ip];
    forall i, j | 0 <= i < j < |t| ensures t[i] < t[j] {
      if j == |ips| {
        assert ips[i] in ips;
      }
    }
  }

  lemma GroupOne(byHost: map<Host, seq<Addr>>, kept: map<Addr, Entry>, ip: Addr, e: Entry)
    requires Grouped(byHost, kept) && ip !in kept && forall j :: j in kept ==> j < ip
    ensures Grouped(byHost[e.host := (if e.host in byHost then byHost[e.host] else []) + [ip]], kept[ip := e])
  {
    var h, ips := e.host, if e.host in byHost then byHost[e.host] else [];
    var kept' := kept[ip := e];
    assert forall j :: j in IPsOf(kept, h) ==> kept[j].host in byHost;
    assert h !in byHost ==> IPsOf(kept, h) == {};
    assert IPsOf(kept', h) == IPsOf(kept, h) + {ip};
    assert forall g :: g != h ==> IPsOf(kept', g) == IPsOf(kept, g);
    assert forall j :: j in IPsOf(kept, h) ==> j < ip;
    assert h !in byHost ==> Lists(ips, IPsOf(kept, h));
    hide Lists, IPsOf;
    AppendToList(ips, IPsOf(kept, h), ip);
  }

  lemma LeastIsFirst(ips: seq<Addr>, s: set<Addr>)
    requires Lists(ips, s) && ips != []
    ensures s != {} && ips[0] == Least(s)
  {
    assert ips[0] in s;
    assert IsLeast(s, Least(s));
    assert Least(s) in ips;
  }

  // The fake IP a watched host keeps: its first active one, else its first one.
  method ChooseKeep(entries: map<Addr, Entry>, ghost kept: map<Addr, Entry>, h: Host, ips: seq<Addr>) returns (keep: Addr)
    requires Lists(ips, IPsOf(kept, h)) && ips != []
    requires forall ip :: ip in ips ==> ip in entries && entries[ip] == kept[ip]
    ensures IPsOf(kept, h) != {} && keep == KeepIP(kept, h)
  {
    keep := ips[0];
    LeastIsFirst(ips, IPsOf(kept, h));
    var i := 0;
    while i < |ips|
      invariant 0 <= i <= |ips|
      invariant forall k :: 0 <= k < i ==> entries[ips[k]].Retired?
    {
      if entries[ips[i]].Active? {
        assert ips[i] in ips && ips[i] in ActiveOf(kept, h);
        forall k | k in ActiveOf(kept, h) ensures ips[i] <= k {
          assert k in IPsOf(kept, h) && k in ips;
          var j :| 0 <= j < |ips| && ips[j] == k;
        }
        assert IsLeast(ActiveOf(kept, h), ips[i]);
        return ips[i];
      }
      i := i + 1;
    }
    assert forall k :: k in IPsOf(kept, h) ==> k in ips && kept[k].Retired?;
    assert ActiveOf(kept, h) <= IPsOf(kept, h);
    assert ActiveOf(kept, h) == {};
  }

  // A reservation of a visited host is settled, one of a host still to come is as it was kept.
  ghost function HalfSettled(kept: map<Addr, Entry>, watched: set<Host>, now: int, done: set<Host>): (r: map<Addr, Entry>) {
    map ip | ip in kept :: if kept[ip].host in done then SettledEntry(kept, watched, now, ip) else kept[ip]
  }

  // Each watched host keeps one active IP; every other IP of a host is retired.
  method SettleHost(entries: map<Addr, Entry>, hosts: map<Host, Addr>, ghost kept: map<Addr, Entry>,
                    watched: set<Host>, now: int, ghost done: set<Host>, host: Host, ips: seq<Addr>)
    returns (entries': map<Addr, Entry>, hosts': map<Host, Addr>)
    requires Lists(ips, IPsOf(kept, host)) && ips != [] && host !in done
    requires entries == HalfSettled(kept, watched, now, done)
    ensures entries' == HalfSettled(kept, watched, now, done + {host})
    ensures IPsOf(kept, host) != {}
    ensures hosts' == if host in watched then hosts[host := KeepIP(kept, host)] else hosts
  {
    entries', hosts' := entries, hosts;
    var keep: Option<Addr> := None;
    assert ips[0] in ips && ips[0] in IPsOf(kept, host);
    if host in watched {
      assert forall ip :: ip in ips ==> ip in IPsOf(kept, host) && entries[ip] == kept[ip];
      var k := ChooseKeep(entries, kept, host, ips);
      keep := Some(k);
      KeepIPIsKept(kept, host);
      hosts' := hosts'[host := k];
      if entries'[k].Retired? {
        entries' := entries'[k := Active(host)];
      }
    }
    ghost var start := entries';
    entries' := RetireOthers(entries', ips, keep, host, now);
    forall ip | ip in kept ensures entries'[ip] == HalfSettled(kept, watched, now, done + {host})[ip] {
      assert ip in IPsOf(kept, host) <==> ip in ips;
      assert kept[ip].host != host ==> start[ip] == entries[ip];
    }
  }

  lemma KeepIPIsKept(kept: map<Addr, Entry>, h: Host)
    requires IPsOf(kept, h) != {}
    ensures KeepIP(kept, h) in IPsOf(kept, h)
  {
    assert ActiveOf(kept, h) <= IPsOf(kept, h);
  }

  method RetireOthers(entries: map<Addr, Entry>, ips: seq<Addr>, keep: Option<Addr>, host: Host, now: int)
    returns (entries': map<Addr, Entry>)
    requires (forall ip :: ip in ips ==> ip in entries) && forall i, j :: 0 <= i < j < |ips| ==> ips[i] < ips[j]
    ensures entries' == map ip | ip in entries ::
                          if ip !in ips || keep == Some(ip) || entries[ip].Retired? then entries[ip] else Retired(host, now)
  {
    entries' := entries;
    for i := 0 to |ips|
      invariant entries'.Keys == entries.Keys
      invariant forall ip :: ip in entries && ip !in ips[..i] ==> entries'[ip] == entries[ip]
      invariant forall ip :: ip in ips[..i] && (keep == Some(ip) || entries[ip].Retired?) ==> entries'[ip] == entries[ip]
      invariant forall ip :: ip in ips[..i] && !(keep == Some(ip) || entries[ip].Retired?) ==> entries'[ip] == Retired(host, now)
    {
      var ip := ips[i];
      assert ip in ips && ip !in ips[..i];
      assert forall j :: j in ips[..i + 1] <==> j in ips[..i] || j == ip;
      if keep == Some(ip) || entries'[ip].Retired? {
        continue;
      }
      entries' := entries'[ip := Retired(host, now)];
    }
    assert ips[..|ips|] == ips;
  }

  ghost function HalfHosts(kept: map<Addr, Entry>, watched: set<Host>, done: set<Host>): (r: map<Host, Addr>) {
    map h | h in done && h in watched && IPsOf(kept, h) != {} :: KeepIP(kept, h)
  }

  lemma HalfHostsNext(kept: map<Addr, Entry>, watched: set<Host>, done: set<Host>, h: Host)
    requires IPsOf(kept, h) != {}
    ensures HalfHosts(kept, watched, done + {h}) ==
            if h in watched then HalfHosts(kept, watched, done)[h := KeepIP(kept, h)] else HalfHosts(kept, watched, done)
  {
    hide KeepIP;
  }

  // Once every host was visited, all is settled.
  lemma HalfIsAll(kept: map<Addr, Entry>, byHost: map<Host, seq<Addr>>, watched: set<Host>, now: int)
    requires Grouped(byHost, kept)
    ensures HalfSettled(kept, watched, now, byHost.Keys) == SettledEntries(kept, watched, now)
    ensures HalfHosts(kept, watched, byHost.Keys) == SettledHosts(kept, watched)
  {
    hide KeepIP, SettledEntry;
    forall h | IPsOf(kept, h) != {} ensures h in byHost {
      var ip :| ip in IPsOf(kept, h);
      assert kept[ip].host in byHost;
    }
  }

  lemma GroupedHas(byHost: map<Host, seq<Addr>>, kept: map<Addr, Entry>, h: Host)
    requires Grouped(byHost, kept) && h in byHost
    ensures byHost[h] != [] && Lists(byHost[h], IPsOf(kept, h))
  {
  }

  lemma NothingSettled(kept: map<Addr, Entry>, watched: set<Host>, now: int)
    ensures HalfSettled(kept, watched, now, {}) == kept && HalfHosts(kept, watched, {}) == map[]
  {
    hide KeepIP, SettledEntry;
  }

  lemma LeastIsIn(s: set<Host>, h: Host)
    requires IsLeastHost(s, h)
    ensures h in s
  {
  }

  method SettleAll(kept: map<Addr, Entry>, byHost: map<Host, seq<Addr>>, watched: set<Host>, now: int)
    returns (entries: map<Addr, Entry>, hosts: map<Host, Addr>)
    requires Grouped(byHost, kept)
    ensures entries == SettledEntries(kept, watched, now) && hosts == SettledHosts(kept, watched)
  {
    entries, hosts := kept, map[];
    var todo := byHost.Keys;
    ghost var done := {};
    hide IsLeast, KeepIP, StrLe, Lists, IPsOf, ActiveOf, Grouped;
    NothingSettled(kept, watched, now);
    HalfIsAll(kept, byHost, watched, now);
    hide HalfSettled, HalfHosts, SettledEntries, SettledHosts, KeepIP, StrLe, Lists, IPsOf, Grouped, SettledEntry, IsLeastHost;
    while todo != {}
      invariant todo <= byHost.Keys && done == byHost.Keys - todo
      invariant entries == HalfSettled(kept, watched, now, done) && hosts == HalfHosts(kept, watched, done)
      decreases |todo|
    {
      LeastHostExists(todo);
      var host :| IsLeastHost(todo, host);
      LeastIsIn(todo, host);
      GroupedHas(byHost, kept, host);
      entries, hosts := SettleHost(entries, hosts, kept, watched, now, done, host, byHost[host]);
      HalfHostsNext(kept, watched, done, host);
      todo := todo - {host};
      done := done + {host};
    }
  }

  // Retired reservations beyond capacity go.
  method EvictToCapacity(plan: VipPlan, capacity: nat)
    modifies plan
    ensures plan.Value() == EvictDown(old(plan.Value()), capacity)
  {
    hide Evict;
    var more := true;
    while more && |plan.entries| > capacity
      invariant EvictDown(plan.Value(), capacity) == EvictDown(old(plan.Value()), capacity)
      invariant !more ==> plan.Value() == EvictDown(plan.Value(), capacity)
      decreases |plan.entries| + (if more then 1 else 0)
    {
      ghost var before := plan.Value();
      more := plan.EvictOldestRetired();
      if more {
        EvictShrinks(before);
      }
    }
  }

  // planVirtualIPs: for every order in which the maps are visited, the plan of the specification.
  method PlanVirtualIPs(r: Range, hash: Host -> nat, watched: set<Host>, existing: map<Addr, Entry>, now: int, capacity: nat)
    returns (plan: VipPlan)
    requires watched != {} ==> r.Range? && r.Valid() && (r.six ==> r.size >= TWO64 || r.size <= TWO64 / 2)
    requires forall h :: hash(h) < TWO64
    requires |existing| + |watched| < 0x4000_0000_0000_0000
    ensures fresh(plan) && plan.Value() == PlanOf(r, hash, watched, existing, now, capacity)
    ensures forall ip :: ip in plan.entries ==> Counts(r, ip, plan.entries[ip], now)
  {
    hide Counts, Grouped;
    plan := new VipPlan();
    var kept, byHost := KeepValid(r, existing, now);
    plan.entries, plan.hosts := SettleAll(kept, byHost, watched, now);
    assert plan.Value() == Settle(r, watched, existing, now);
    SettledSize(r, watched, existing, now);
    EvictDownSize(plan.Value(), capacity);
    hide EvictDown, AllocateOne, StrLe, Settle;
    EvictToCapacity(plan, capacity);
    ghost var target := Allocate(plan.Value(), r, hash, watched, capacity);
    var todo := watched;
    while todo != {}
      invariant todo <= watched
      invariant target == Allocate(plan.Value(), r, hash, todo, capacity)
      invariant |plan.entries| + |todo| < 0x4000_0000_0000_0000
      decreases |todo|
    {
      LeastHostExists(todo);
      var host :| IsLeastHost(todo, host);
      LeastHostUnique(todo, host, LeastHost(todo));
      todo := todo - {host};
      AllocateHost(plan, r, hash, host, capacity);
    }
    assert plan.Value() == PlanOf(r, hash, watched, existing, now, capacity);
    hide *;
    PlanCounts(r, hash, watched, existing, now, capacity, plan.Value());
  }

  lemma SettledSize(r: Range, watched: set<Host>, existing: map<Addr, Entry>, now: int)
    ensures |Settle(r, watched, existing, now).entries| <= |existing|
  {
    hide SettledEntry, SettledHosts;
    var e := Settle(r, watched, existing, now).entries;
    var kept := KeptEntries(r, existing, now);
    assert e.Keys == kept.Keys;
    assert kept.Keys <= existing.Keys;
    hide *;
    SubsetSize(e.Keys, existing.Keys);
    assert |e.Keys| == |e| && |existing.Keys| == |existing|;
  }

  lemma {:induction false} EvictDownSize(p: Plan, capacity: nat)
    ensures |EvictDown(p, capacity).entries| <= |p.entries|
    decreases |p.entries|
  {
    hide Evict;
    if |p.entries| > capacity && RetiredIPs(p.entries) != {} {
      EvictShrinks(p);
      EvictDownSize(Evict(p), capacity);
    }
  }

  method AllocateHost(plan: VipPlan, r: Range, hash: Host -> nat, host: Host, capacity: nat)
    requires r.Range? && r.Valid() && (r.six ==> r.size >= TWO64 || r.size <= TWO64 / 2)
    requires hash(host) < TWO64 && |plan.entries| < 0x4000_0000_0000_0000
    modifies plan
    ensures plan.Value() == AllocateOne(old(plan.Value()), r, hash, host, capacity)
    ensures |plan.entries| <= old(|plan.entries|) + 1
  {
    hide FreeIP, Evict;
    if host in plan.hosts || host == "" {
      return;
    }
    if |plan.entries| >= capacity {
      var ok := plan.EvictOldestRetired();
      if !ok {
        plan.unallocated := plan.unallocated + [host];
        return;
      }
      EvictShrinks(old(plan.Value()));
    }
    var free;
    assert |plan.entries.Keys| == |plan.entries|;
    if r.six {
      free := FreeVirtualIP6(r, hash(host), plan.entries.Keys);
    } else {
      free := FreeVirtualIP4(r, hash(host), plan.entries.Keys);
    }
    match free
    case None =>
      plan.unallocated := plan.unallocated + [host];
    case Some(ip) =>
      plan.entries := plan.entries[ip := Active(host)];
      plan.hosts := plan.hosts[host := ip];
  }
}
