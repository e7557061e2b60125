/** What every plan of the fake IPs guarantees, and what a run of plans does. */
module VirtualIPPlanProperties {
  import opened Options
  import opened FreeVirtualIP
  import opened VirtualIPPlan

  // ---- What each step of a plan keeps ----

  // Hosts is the exact inverse of the active reservations.
  ghost predicate Inverse(p: Plan) {
    && (forall h :: h in p.hosts ==> p.hosts[h] in p.entries && p.entries[p.hosts[h]] == Active(h))
    && (forall ip :: ip in p.entries && p.entries[ip].Active? ==>
          p.entries[ip].host in p.hosts && p.hosts[p.entries[ip].host] == ip)
  }

  // Every reservation would be kept by a plan at the same time, and its host, if watched, has one.
  ghost predicate Current(p: Plan, r: Range, watched: set<Host>, now: int) {
    && (forall ip :: ip in p.entries ==> Kept(r, ip, p.entries[ip], now))
    && (forall ip :: ip in p.entries && p.entries[ip].host in watched ==> p.entries[ip].host in p.hosts)
    && p.hosts.Keys <= watched
  }

  ghost predicate WithinCapacity(p: Plan, capacity: nat) {
    |p.entries| > capacity ==> RetiredIPs(p.entries) == {}
  }

  predicate StrictlyBefore(a: Eviction, b: Eviction) {
    a.entry.Retired? && b.entry.Retired? && (a.entry.at < b.entry.at || (a.entry.at == b.entry.at && a.ip < b.ip))
  }

  // Evictions go in strict (retired time, address) order, and nothing left went before any of them.
  ghost predicate InOrder(p: Plan) {
    && (forall i :: 0 <= i < |p.evicted| ==> p.evicted[i].entry.Retired?)
    && (forall i, j :: 0 <= i < j < |p.evicted| ==> StrictlyBefore(p.evicted[i], p.evicted[j]))
    && (forall i, ip :: 0 <= i < |p.evicted| && ip in p.entries && p.entries[ip].Retired? ==>
          StrictlyBefore(p.evicted[i], Eviction(ip, p.entries[ip])))
  }

  // From p to q, no reservation changes hands without being evicted: one of p is still in q or was
  // evicted on the way, one of q is of p or active.
  ghost predicate Continues(p: Plan, q: Plan) {
    && p.evicted <= q.evicted
    && (forall ip :: ip in p.entries ==>
          (ip in q.entries && q.entries[ip] == p.entries[ip]) || Eviction(ip, p.entries[ip]) in q.evicted[|p.evicted|..])
    && (forall ip :: ip in q.entries ==> q.entries[ip].Active? || (ip in p.entries && p.entries[ip] == q.entries[ip]))
    && (forall h :: h in p.hosts ==> h in q.hosts && q.hosts[h] == p.hosts[h])
  }

  lemma InTail(a: seq<Eviction>, b: seq<Eviction>, c: seq<Eviction>, e: Eviction)
    requires a <= b <= c && (e in b[|a|..] || e in c[|b|..])
    ensures e in c[|a|..]
  {
    if e in b[|a|..] {
      var k :| |a| <= k < |b| && b[k] == e;
      assert c[k] == e && c[|a|..][k - |a|] == c[k];
    } else {
      var k :| |b| <= k < |c| && c[k] == e;
      assert c[|a|..][k - |a|] == c[k];
    }
  }

  lemma ContinuesTrans(p: Plan, q: Plan, s: Plan)
    requires Continues(p, q) && Continues(q, s)
    ensures Continues(p, s)
  {
    forall ip | ip in p.entries && !(ip in s.entries && s.entries[ip] == p.entries[ip])
      ensures Eviction(ip, p.entries[ip]) in s.evicted[|p.evicted|..]
    {
      InTail(p.evicted, q.evicted, s.evicted, Eviction(ip, p.entries[ip]));
    }
  }

  lemma EvictInOrder(p: Plan)
    requires InOrder(p) && RetiredIPs(p.entries) != {}
    ensures InOrder(Evict(p))
  {
    var ip, q := Oldest(p.entries), Evict(p);
    assert IsOldest(p.entries, ip);
    forall i, j | 0 <= i < j < |q.evicted| ensures StrictlyBefore(q.evicted[i], q.evicted[j]) {
      if j == |p.evicted| {
        assert StrictlyBefore(p.evicted[i], Eviction(ip, p.entries[ip]));
      }
    }
    forall i, k | 0 <= i < |q.evicted| && k in q.entries && q.entries[k].Retired?
      ensures StrictlyBefore(q.evicted[i], Eviction(k, q.entries[k]))
    {
      if i < |p.evicted| {
        assert StrictlyBefore(p.evicted[i], Eviction(k, p.entries[k]));
      }
    }
  }

  lemma EvictContinues(p: Plan)
    requires RetiredIPs(p.entries) != {}
    ensures Continues(p, Evict(p))
  {
    var ip, q := Oldest(p.entries), Evict(p);
    assert q.evicted[|p.evicted|..] == [Eviction(ip, p.entries[ip])];
  }

  lemma EvictInverse(p: Plan)
    requires Inverse(p) && RetiredIPs(p.entries) != {}
    ensures Inverse(Evict(p))
  {
  }

  lemma EvictCurrent(p: Plan, r: Range, watched: set<Host>, now: int)
    requires Current(p, r, watched, now) && RetiredIPs(p.entries) != {}
    ensures Current(Evict(p), r, watched, now)
  {
  }

  lemma EvictStep(p: Plan, r: Range, watched: set<Host>, now: int)
    requires Inverse(p) && Current(p, r, watched, now) && InOrder(p) && RetiredIPs(p.entries) != {}
    ensures Inverse(Evict(p)) && Current(Evict(p), r, watched, now) && InOrder(Evict(p)) && Continues(p, Evict(p))
    ensures Evict(p).hosts == p.hosts && Evict(p).unallocated == p.unallocated && |Evict(p).entries| == |p.entries| - 1
  {
    hide Inverse, Current, InOrder, Continues, IsOldest;
    EvictShrinks(p);
    EvictInverse(p);
    EvictCurrent(p, r, watched, now);
    EvictInOrder(p);
    EvictContinues(p);
  }

  lemma {:induction false} EvictDownKeeps(p: Plan, r: Range, watched: set<Host>, now: int, capacity: nat)
    requires Inverse(p) && Current(p, r, watched, now) && InOrder(p)
    ensures var q := EvictDown(p, capacity);
            && Inverse(q) && Current(q, r, watched, now) && InOrder(q) && WithinCapacity(q, capacity) && Continues(p, q)
            && q.hosts == p.hosts && q.unallocated == p.unallocated && |q.entries| <= |p.entries|
            && (q == p || |q.entries| >= capacity)
    decreases |p.entries|
  {
    SelfContinues(p);
    hide Evict, Inverse, Current, InOrder, Continues, RetiredIPs;
    if |p.entries| > capacity && RetiredIPs(p.entries) != {} {
      EvictStep(p, r, watched, now);
      EvictDownKeeps(Evict(p), r, watched, now, capacity);
      ContinuesTrans(p, Evict(p), EvictDown(Evict(p), capacity));
    }
  }

  // Giving a host its fake IP.
  function Take(p: Plan, h: Host, ip: Addr): (r: Plan) {
    p.(entries := p.entries[ip := Active(h)], hosts := p.hosts[h := ip])
  }

  lemma TakeInverse(p: Plan, h: Host, ip: Addr)
    requires Inverse(p) && h !in p.hosts && ip !in p.entries
    ensures Inverse(Take(p, h, ip))
  {
  }

  lemma TakeOrder(p: Plan, h: Host, ip: Addr)
    requires InOrder(p) && ip !in p.entries
    ensures InOrder(Take(p, h, ip)) && RetiredIPs(Take(p, h, ip).entries) == RetiredIPs(p.entries)
  {
    var q := Take(p, h, ip);
    assert forall k :: k in q.entries && q.entries[k].Retired? ==> k in p.entries && p.entries[k] == q.entries[k];
  }

  lemma TakeContinues(p: Plan, h: Host, ip: Addr)
    requires h !in p.hosts && ip !in p.entries
    ensures Continues(p, Take(p, h, ip))
  {
    assert Take(p, h, ip).evicted[|p.evicted|..] == [];
  }

  lemma TakeStep(p: Plan, r: Range, watched: set<Host>, now: int, h: Host, ip: Addr)
    requires Inverse(p) && Current(p, r, watched, now) && InOrder(p)
    requires h in watched && h !in p.hosts && h != "" && ip !in p.entries && r.Contains(ip)
    ensures var q := Take(p, h, ip);
            && Inverse(q) && Current(q, r, watched, now) && InOrder(q) && Continues(p, q)
            && |q.entries| == |p.entries| + 1 && RetiredIPs(q.entries) == RetiredIPs(p.entries)
  {
    TakeInverse(p, h, ip);
    TakeOrder(p, h, ip);
    TakeContinues(p, h, ip);
    hide Inverse, InOrder, Continues, RetiredIPs;
  }

  // The range never runs out: it has a free address for any host as long as at most n are taken.
  ghost predicate HasRoom(r: Range, hash: Host -> nat, n: nat)
    requires r.Range? && r.Valid()
  {
    forall h, taken: set<Addr> :: |taken| <= n ==> FreeIP(r, hash(h), taken).Some?
  }

  lemma RoomIPv4(r: Range, hash: Host -> nat, n: nat)
    requires r.Range? && r.Valid() && !r.six && n < 8128
    ensures HasRoom(r, hash, n)
  {
    forall h, taken: set<Addr> | |taken| <= n ensures FreeIP(r, hash(h), taken).Some? {
      FreeIP4Found(r, hash(h), taken);
    }
  }

  lemma RoomIPv6(r: Range, hash: Host -> nat, n: nat)
    requires r.Range? && r.Valid() && r.six && n + 3 <= r.Span()
    ensures HasRoom(r, hash, n)
  {
    forall h, taken: set<Addr> | |taken| <= n ensures FreeIP(r, hash(h), taken).Some? {
      FreeIP6Found(r, hash(h), taken);
    }
  }

  // A host that was visited has its fake IP, unless the map is full of active reservations.
  ghost predicate Served(p: Plan, h: Host, capacity: nat) {
    h in p.hosts || h == "" || (|p.entries| >= capacity && RetiredIPs(p.entries) == {})
  }

  // Everything a step of a plan keeps.
  ghost predicate Sound(p: Plan, r: Range, watched: set<Host>, now: int, capacity: nat) {
    Inverse(p) && Current(p, r, watched, now) && InOrder(p) && WithinCapacity(p, capacity)
  }

  lemma AllocateOneKeeps(p: Plan, r: Range, hash: Host -> nat, h: Host, capacity: nat, watched: set<Host>, now: int)
    requires r.Range? && r.Valid() && h in watched && Sound(p, r, watched, now, capacity)
    ensures var q := AllocateOne(p, r, hash, h, capacity);
            && Sound(q, r, watched, now, capacity) && Continues(p, q) && |q.entries| <= |p.entries| + 1
            && (RetiredIPs(p.entries) == {} ==> RetiredIPs(q.entries) == {} && |q.entries| >= |p.entries|)
            && (HasRoom(r, hash, |p.entries|) ==>
                  Served(q, h, capacity) && (q.evicted == p.evicted || |q.entries| >= capacity) && |q.entries| >= |p.entries|)
  {
    SelfContinues(p);
    UnallocatedKeeps(p, p.unallocated + [h], r, watched, now);
    hide FreeIP, Inverse, Current, InOrder, Continues, Evict, HasRoom;
    if !(h in p.hosts || h == "" || (|p.entries| >= capacity && RetiredIPs(p.entries) == {})) {
      var q := p;
      if |p.entries| >= capacity {
        EvictStep(p, r, watched, now);
        q := Evict(p);
      }
      GiveFree(q, r, hash, h, watched, now);
      if HasRoom(r, hash, |p.entries|) {
        RoomIsFree(r, hash, |p.entries|, h, q.entries);
      }
      ContinuesTrans(p, q, AllocateOne(p, r, hash, h, capacity));
    }
  }

  lemma RoomIsFree(r: Range, hash: Host -> nat, n: nat, h: Host, entries: map<Addr, Entry>)
    requires r.Range? && r.Valid() && HasRoom(r, hash, n) && |entries| <= n
    ensures FreeIP(r, hash(h), entries.Keys).Some?
  {
    hide FreeIP;
    assert |entries.Keys| == |entries|;
  }

  // The second half of the step, with room in the map.
  lemma GiveFree(q: Plan, r: Range, hash: Host -> nat, h: Host, watched: set<Host>, now: int)
    requires r.Range? && r.Valid() && h in watched && h !in q.hosts && h != ""
    requires Inverse(q) && Current(q, r, watched, now) && InOrder(q)
    ensures var free := FreeIP(r, hash(h), q.entries.Keys);
            var s := match free
                     case None => q.(unallocated := q.unallocated + [h])
                     case Some(ip) => q.(entries := q.entries[ip := Active(h)], hosts := q.hosts[h := ip]);
            && Inverse(s) && Current(s, r, watched, now) && InOrder(s) && Continues(q, s) && s.evicted == q.evicted
            && (free.Some? ==> |s.entries| == |q.entries| + 1 && h in s.hosts)
            && RetiredIPs(s.entries) == RetiredIPs(q.entries)
  {
    hide FreeIP;
    var free := FreeIP(r, hash(h), q.entries.Keys);
    SelfContinues(q);
    hide Inverse, Current, InOrder, Continues;
    if free.Some? {
      FreeIPFresh(r, hash(h), q.entries.Keys);
      TakeStep(q, r, watched, now, h, free.value);
    } else {
      UnallocatedKeeps(q, q.unallocated + [h], r, watched, now);
    }
  }

  lemma UnallocatedKeeps(q: Plan, u: seq<Host>, r: Range, watched: set<Host>, now: int)
    requires Inverse(q) && Current(q, r, watched, now) && InOrder(q)
    ensures var s := q.(unallocated := u); Inverse(s) && Current(s, r, watched, now) && InOrder(s)
  {
  }

  lemma SelfContinues(p: Plan)
    ensures Continues(p, p) && forall u :: Continues(p, p.(unallocated := u))
  {
  }

  lemma {:induction false} AllocateKeeps(p: Plan, r: Range, hash: Host -> nat, todo: set<Host>, capacity: nat, watched: set<Host>, now: int)
    requires todo != {} ==> r.Range? && r.Valid()
    requires todo <= watched && Sound(p, r, watched, now, capacity)
    ensures var q := Allocate(p, r, hash, todo, capacity);
            && Sound(q, r, watched, now, capacity) && Continues(p, q) && |q.entries| <= |p.entries| + |todo|
            && (RetiredIPs(p.entries) == {} ==> RetiredIPs(q.entries) == {} && |q.entries| >= |p.entries|)
    decreases |todo|
  {
    SelfContinues(p);
    hide AllocateOne, Sound, Continues, RetiredIPs;
    if todo != {} {
      var h := LeastHost(todo);
      var q := AllocateOne(p, r, hash, h, capacity);
      AllocateOneKeeps(p, r, hash, h, capacity, watched, now);
      AllocateKeeps(q, r, hash, todo - {h}, capacity, watched, now);
      ContinuesTrans(p, q, Allocate(p, r, hash, todo, capacity));
    }
  }

  // With room in the range, every host of todo is served, those served before stay so, and a plan that
  // evicted anything is full.
  lemma {:induction false} AllocateServes(p: Plan, r: Range, hash: Host -> nat, todo: set<Host>, capacity: nat, watched: set<Host>, now: int, k: Host)
    requires todo != {} ==> r.Range? && r.Valid() && HasRoom(r, hash, |p.entries| + |todo|)
    requires todo <= watched && Sound(p, r, watched, now, capacity)
    requires k in todo || Served(p, k, capacity)
    ensures var q := Allocate(p, r, hash, todo, capacity);
            && Served(q, k, capacity)
            && (q.evicted == p.evicted || |q.entries| >= capacity) && |q.entries| >= |p.entries|
    decreases |todo|
  {
    hide AllocateOne, Sound, Continues, RetiredIPs, HasRoom, Served, StrLe;
    if todo != {} {
      var h := LeastHost(todo);
      var q := AllocateOne(p, r, hash, h, capacity);
      var n := |p.entries| + |todo|;
      AllocateOneKeeps(p, r, hash, h, capacity, watched, now);
      LessRoom(r, hash, n, |q.entries| + |todo - {h}|);
      LessRoom(r, hash, n, |p.entries|);
      if k !in todo {
        ServedStays(p, q, k, capacity);
      }
      AllocateServes(q, r, hash, todo - {h}, capacity, watched, now, k);
    }
  }

  lemma ServedStays(p: Plan, q: Plan, h: Host, capacity: nat)
    requires Served(p, h, capacity) && Continues(p, q)
    requires RetiredIPs(p.entries) == {} ==> RetiredIPs(q.entries) == {} && |q.entries| >= |p.entries|
    ensures Served(q, h, capacity)
  {
  }

  lemma HostsStay(p: Plan, q: Plan, h: Host)
    requires Continues(p, q) && h in p.hosts
    ensures h in q.hosts && q.hosts[h] == p.hosts[h]
  {
  }

  lemma LessRoom(r: Range, hash: Host -> nat, n: nat, m: nat)
    requires r.Range? && r.Valid() && m <= n && HasRoom(r, hash, n)
    ensures HasRoom(r, hash, m)
  {
  }

  // ---- The first half of a plan ----

  lemma KeepIPIsHosts(kept: map<Addr, Entry>, h: Host)
    requires IPsOf(kept, h) != {}
    ensures KeepIP(kept, h) in IPsOf(kept, h)
  {
    assert ActiveOf(kept, h) <= IPsOf(kept, h);
  }

  lemma SettleSound(r: Range, watched: set<Host>, existing: map<Addr, Entry>, now: int)
    ensures var p := Settle(r, watched, existing, now);
            Inverse(p) && Current(p, r, watched, now) && InOrder(p)
            && p.entries.Keys <= existing.Keys && p.evicted == [] && p.unallocated == []
  {
    hide KeepIP, IPsOf;
    var kept := KeptEntries(r, existing, now);
    var p := Settle(r, watched, existing, now);
    forall h | h in p.hosts
      ensures p.hosts[h] in p.entries && p.entries[p.hosts[h]] == Active(h)
    {
      KeptOf(kept, h);
    }
    forall ip | ip in p.entries
      ensures kept[ip].host == p.entries[ip].host
      ensures kept[ip].host in watched ==> kept[ip].host in p.hosts
      ensures Kept(r, ip, p.entries[ip], now)
    {
      KeptHas(kept, ip);
    }
  }

  lemma KeptOf(kept: map<Addr, Entry>, h: Host)
    requires IPsOf(kept, h) != {}
    ensures KeepIP(kept, h) in kept && kept[KeepIP(kept, h)].host == h
  {
    KeepIPIsHosts(kept, h);
  }

  lemma KeptHas(kept: map<Addr, Entry>, ip: Addr)
    requires ip in kept
    ensures ip in IPsOf(kept, kept[ip].host)
  {
  }

  // ---- A whole plan ----

  // For every plan: Hosts is the inverse of the active reservations (so a watched host has at most one),
  // retired reservations stay only within capacity, and evictions went oldest first.
  lemma PlanSound(r: Range, hash: Host -> nat, watched: set<Host>, existing: map<Addr, Entry>, now: int, capacity: nat)
    requires watched != {} ==> r.Range? && r.Valid()
    ensures var p := PlanOf(r, hash, watched, existing, now, capacity);
            && Sound(p, r, watched, now, capacity)
            && Continues(Settle(r, watched, existing, now), p)
            && |p.entries| <= |existing| + |watched|
  {
    hide Inverse, Current, InOrder, Continues, Settle, EvictDown, Allocate;
    var s := Settle(r, watched, existing, now);
    SettleSound(r, watched, existing, now);
    KeysSmaller(s.entries, existing);
    EvictDownKeeps(s, r, watched, now, capacity);
    var d := EvictDown(s, capacity);
    AllocateKeeps(d, r, hash, watched, capacity, watched, now);
    ContinuesTrans(s, d, Allocate(d, r, hash, watched, capacity));
  }

  lemma KeysSmaller(a: map<Addr, Entry>, b: map<Addr, Entry>)
    requires a.Keys <= b.Keys
    ensures |a| <= |b|
  {
    SubsetSize(a.Keys, b.Keys);
    assert |a.Keys| == |a| && |b.Keys| == |b|;
  }

  // With room in the range, a watched host is left without a fake IP only when the map is full of
  // active reservations, and a plan evicts only when it ends up full.
  lemma PlanServes(r: Range, hash: Host -> nat, watched: set<Host>, existing: map<Addr, Entry>, now: int, capacity: nat)
    requires watched != {} ==> r.Range? && r.Valid() && HasRoom(r, hash, |existing| + |watched|)
    ensures var p := PlanOf(r, hash, watched, existing, now, capacity);
            && (forall h :: h in watched ==> Served(p, h, capacity))
            && (p.evicted != [] ==> |p.entries| >= capacity)
  {
    hide Inverse, Current, InOrder, Continues, Settle, EvictDown, Allocate, HasRoom;
    var s := Settle(r, watched, existing, now);
    SettleSound(r, watched, existing, now);
    KeysSmaller(s.entries, existing);
    EvictDownKeeps(s, r, watched, now, capacity);
    var d := EvictDown(s, capacity);
    if watched != {} {
      LessRoom(r, hash, |existing| + |watched|, |d.entries| + |watched|);
    }
    forall h | h in watched ensures Served(PlanOf(r, hash, watched, existing, now, capacity), h, capacity) {
      AllocateServes(d, r, hash, watched, capacity, watched, now, h);
    }
    AllocateServes(d, r, hash, watched, capacity, watched, now, "");
  }

  // A watched host keeps its sole active fake IP in the range.
  lemma KeepsActive(r: Range, hash: Host -> nat, watched: set<Host>, existing: map<Addr, Entry>, now: int, capacity: nat, h: Host, ip: Addr)
    requires watched != {} ==> r.Range? && r.Valid()
    requires h in watched && ip in existing && existing[ip] == Active(h) && Kept(r, ip, existing[ip], now)
    requires forall j :: j in existing && existing[j] == Active(h) && r.Contains(j) ==> j == ip
    ensures var p := PlanOf(r, hash, watched, existing, now, capacity);
            h in p.hosts && p.hosts[h] == ip && ip in p.entries && p.entries[ip] == Active(h)
  {
    var kept := KeptEntries(r, existing, now);
    assert ip in kept && ip in IPsOf(kept, h);
    assert ActiveOf(kept, h) == {ip};
    assert KeepIP(kept, h) == ip;
    var s := Settle(r, watched, existing, now);
    assert h in s.hosts && s.hosts[h] == ip;
    hide *;
    PlanKeepsHost(r, hash, watched, existing, now, capacity, h);
  }

  lemma PlanKeepsHost(r: Range, hash: Host -> nat, watched: set<Host>, existing: map<Addr, Entry>, now: int, capacity: nat, h: Host)
    requires watched != {} ==> r.Range? && r.Valid()
    requires h in Settle(r, watched, existing, now).hosts
    ensures var p := PlanOf(r, hash, watched, existing, now, capacity);
            var ip := Settle(r, watched, existing, now).hosts[h];
            h in p.hosts && p.hosts[h] == ip && ip in p.entries && p.entries[ip] == Active(h)
  {
    hide Settle, PlanOf;
    PlanSound(r, hash, watched, existing, now, capacity);
    HostsStay(Settle(r, watched, existing, now), PlanOf(r, hash, watched, existing, now, capacity), h);
  }

  // A watched host with only retired reservations gets its lowest one back.
  lemma Reactivates(r: Range, hash: Host -> nat, watched: set<Host>, existing: map<Addr, Entry>, now: int, capacity: nat, h: Host)
    requires watched != {} ==> r.Range? && r.Valid()
    requires h in watched && IPsOf(KeptEntries(r, existing, now), h) != {}
    requires ActiveOf(KeptEntries(r, existing, now), h) == {}
    ensures var p := PlanOf(r, hash, watched, existing, now, capacity);
            h in p.hosts && p.hosts[h] == Least(IPsOf(KeptEntries(r, existing, now), h))
  {
    assert h in Settle(r, watched, existing, now).hosts;
    hide PlanOf;
    PlanKeepsHost(r, hash, watched, existing, now, capacity, h);
  }

  // ---- Runs of plans ----

  datatype Request = Request(watched: set<Host>, now: int)

  // Plans made one after the other, each from the reservations of the one before, at any times.
  ghost predicate Run(r: Range, hash: Host -> nat, capacity: nat, reqs: seq<Request>, states: seq<map<Addr, Entry>>)
    requires r.Range? && r.Valid()
  {
    && |states| == |reqs| + 1
    && (forall i :: 0 <= i < |reqs| ==> states[i + 1] == PlanAt(r, hash, capacity, reqs, states, i).entries)
  }

  ghost function PlanAt(r: Range, hash: Host -> nat, capacity: nat, reqs: seq<Request>, states: seq<map<Addr, Entry>>, i: nat): (res: Plan)
    requires r.Range? && r.Valid() && i < |reqs| && i < |states|
  {
    PlanOf(r, hash, reqs[i].watched, states[i], reqs[i].now, capacity)
  }

  predicate EvictedIn(p: Plan, ip: Addr) {
    exists i :: 0 <= i < |p.evicted| && p.evicted[i].ip == ip
  }

  // What one plan may leave of h's reservation e: h's still, active, or retired since before or since now.
  predicate StillHeld(e: Entry, f: Entry, h: Host, now: int) {
    f == Active(h) || f == if e.Retired? then e else Retired(h, now)
  }

  // A plan keeps a reservation for its host, unless it evicts it or finds it 24 hours retired.
  lemma PlanHolds(r: Range, hash: Host -> nat, watched: set<Host>, existing: map<Addr, Entry>, now: int, capacity: nat, ip: Addr, h: Host)
    requires r.Range? && r.Valid() && ip in existing && existing[ip].host == h && Kept(r, ip, existing[ip], now)
    requires !EvictedIn(PlanOf(r, hash, watched, existing, now, capacity), ip)
    ensures var p := PlanOf(r, hash, watched, existing, now, capacity);
            ip in p.entries && StillHeld(existing[ip], p.entries[ip], h, now)
  {
    var s := Settle(r, watched, existing, now);
    var kept := KeptEntries(r, existing, now);
    assert ip in kept && ip in s.entries;
    KeptHas(kept, ip);
    assert StillHeld(existing[ip], s.entries[ip], h, now);
    assert s.evicted == [];
    var p := PlanOf(r, hash, watched, existing, now, capacity);
    hide Settle, PlanOf, StillHeld;
    PlanSound(r, hash, watched, existing, now, capacity);
    NotEvictedStays(s, p, ip);
  }

  lemma NotEvictedStays(p: Plan, q: Plan, ip: Addr)
    requires Continues(p, q) && ip in p.entries && !EvictedIn(q, ip)
    ensures ip in q.entries && q.entries[ip] == p.entries[ip]
  {
  }

  // From plan m on, which retired it, up to plan k the reservation is h's and retired since plan m.
  ghost predicate RetiredBy(reqs: seq<Request>, states: seq<map<Addr, Entry>>, m: nat, k: nat, ip: Addr, h: Host) {
    && m < k < |states| && k <= |reqs|
    && ip in states[m] && states[m][ip] == Active(h)
    && forall i :: m < i <= k ==> ip in states[i] && states[i][ip] == Retired(h, reqs[m].now)
  }

  // Plan i gave h's fake IP up: it evicted it, or found it retired by some plan at least 24 hours earlier.
  ghost predicate GaveUp(r: Range, hash: Host -> nat, capacity: nat, reqs: seq<Request>, states: seq<map<Addr, Entry>>,
                         j: nat, i: nat, ip: Addr, h: Host)
    requires r.Range? && r.Valid() && i < |reqs| && i < |states|
  {
    || EvictedIn(PlanAt(r, hash, capacity, reqs, states, i), ip)
    || exists m :: j <= m && RetiredBy(reqs, states, m, i, ip, h) && reqs[i].now - reqs[m].now >= RETENTION
  }

  // Over any run with a fixed range: from a fake IP's being active for a host on, it is reserved for that host,
  // active or retired since the plan that retired it, for as long as no plan gives it up.
  lemma {:induction false} ReservedForADay(r: Range, hash: Host -> nat, capacity: nat, reqs: seq<Request>, states: seq<map<Addr, Entry>>,
                                           j: nat, k: nat, ip: Addr, h: Host)
    requires r.Range? && r.Valid() && Run(r, hash, capacity, reqs, states)
    requires 0 < j <= k <= |reqs|
    requires ip in states[j] && states[j][ip] == Active(h)
    requires forall i :: j <= i < k ==> !GaveUp(r, hash, capacity, reqs, states, j, i, ip, h)
    ensures ip in states[k]
    ensures states[k][ip] == Active(h) || exists m :: j <= m && RetiredBy(reqs, states, m, k, ip, h)
    decreases k
  {
    hide PlanOf;
    if k > j {
      var n := k - 1;
      ReservedForADay(r, hash, capacity, reqs, states, j, n, ip, h);
      EntriesCurrent(r, hash, capacity, reqs, states, n, ip);
      assert !GaveUp(r, hash, capacity, reqs, states, j, n, ip, h);
      assert states[k] == PlanAt(r, hash, capacity, reqs, states, n).entries;
      if states[n][ip] == Active(h) {
        PlanHolds(r, hash, reqs[n].watched, states[n], reqs[n].now, capacity, ip, h);
        assert states[k][ip] == Retired(h, reqs[n].now) ==> RetiredBy(reqs, states, n, k, ip, h);
      } else {
        var m :| j <= m && RetiredBy(reqs, states, m, n, ip, h);
        PlanHolds(r, hash, reqs[n].watched, states[n], reqs[n].now, capacity, ip, h);
        assert states[k][ip] == Retired(h, reqs[m].now) ==> RetiredBy(reqs, states, m, k, ip, h);
      }
    }
  }

  // So an IP that passes from host to host, or is dropped, was given up on the way: evicted to make room, or
  // released by a plan made at least 24 hours after the one that retired it.
  lemma HandedOnMeans(r: Range, hash: Host -> nat, capacity: nat, reqs: seq<Request>, states: seq<map<Addr, Entry>>,
                      j: nat, k: nat, ip: Addr, h: Host)
    requires r.Range? && r.Valid() && Run(r, hash, capacity, reqs, states)
    requires 0 < j <= k <= |reqs|
    requires ip in states[j] && states[j][ip] == Active(h) && (ip in states[k] ==> states[k][ip].host != h)
    ensures exists i :: j <= i < k && GaveUp(r, hash, capacity, reqs, states, j, i, ip, h)
  {
    hide GaveUp;
    if forall i :: j <= i < k ==> !GaveUp(r, hash, capacity, reqs, states, j, i, ip, h) {
      ReservedForADay(r, hash, capacity, reqs, states, j, k, ip, h);
    }
  }

  // The same from a reservation in any state, by the times recorded in it: while no plan evicts it or finds it
  // 24 hours retired, it stays its host's.
  lemma {:induction false} StaysItsHosts(r: Range, hash: Host -> nat, capacity: nat, reqs: seq<Request>, states: seq<map<Addr, Entry>>,
                                         j: nat, k: nat, ip: Addr, h: Host)
    requires r.Range? && r.Valid() && Run(r, hash, capacity, reqs, states)
    requires 0 < j <= k <= |reqs|
    requires ip in states[j] && states[j][ip].host == h
    requires forall i :: j <= i < k ==> !EvictedIn(PlanAt(r, hash, capacity, reqs, states, i), ip)
    requires forall i :: j <= i < k && ip in states[i] && states[i][ip].Retired? && states[i][ip].host == h ==>
               reqs[i].now - states[i][ip].at < RETENTION
    ensures ip in states[k] && states[k][ip].host == h
    decreases k
  {
    hide PlanOf;
    if k > j {
      StaysItsHosts(r, hash, capacity, reqs, states, j, k - 1, ip, h);
      EntriesCurrent(r, hash, capacity, reqs, states, k - 1, ip);
      assert states[k] == PlanAt(r, hash, capacity, reqs, states, k - 1).entries;
      PlanHolds(r, hash, reqs[k - 1].watched, states[k - 1], reqs[k - 1].now, capacity, ip, h);
    }
  }

  lemma EntriesCurrent(r: Range, hash: Host -> nat, capacity: nat, reqs: seq<Request>, states: seq<map<Addr, Entry>>, j: nat, ip: Addr)
    requires r.Range? && r.Valid() && Run(r, hash, capacity, reqs, states)
    requires 0 < j <= |reqs| && ip in states[j]
    ensures states[j][ip].host != "" && r.Contains(ip)
  {
    hide PlanOf;
    assert states[j] == PlanAt(r, hash, capacity, reqs, states, j - 1).entries;
    PlanSound(r, hash, reqs[j - 1].watched, states[j - 1], reqs[j - 1].now, capacity);
  }

  // ---- Planning again changes nothing ----

  // A plan that needs no decision: every watched host is served, nothing is over capacity.
  lemma {:induction false} AllocateServedIsIdle(p: Plan, r: Range, hash: Host -> nat, todo: set<Host>, capacity: nat)
    requires todo != {} ==> r.Range? && r.Valid()
    requires forall h :: h in todo ==> Served(p, h, capacity)
    ensures var q := Allocate(p, r, hash, todo, capacity);
            q.entries == p.entries && q.hosts == p.hosts && q.evicted == p.evicted
    decreases |todo|
  {
    hide RetiredIPs, FreeIP;
    if todo != {} {
      var h := LeastHost(todo);
      assert Served(p, h, capacity);
      var q := AllocateOne(p, r, hash, h, capacity);
      assert q.entries == p.entries && q.hosts == p.hosts && q.evicted == p.evicted;
      forall k | k in todo - {h} ensures Served(q, k, capacity) {
        assert Served(p, k, capacity);
      }
      AllocateServedIsIdle(q, r, hash, todo - {h}, capacity);
    }
  }

  lemma SettleIdle(p: Plan, r: Range, watched: set<Host>, now: int)
    requires Inverse(p) && Current(p, r, watched, now)
    ensures var s := Settle(r, watched, p.entries, now); s.entries == p.entries && s.hosts == p.hosts
  {
    var e := p.entries;
    assert KeptEntries(r, e, now) == e;
    forall h | h in p.hosts ensures IPsOf(e, h) != {} && KeepIP(e, h) == p.hosts[h] {
      assert p.hosts[h] in ActiveOf(e, h) && ActiveOf(e, h) == {p.hosts[h]};
      assert p.hosts[h] in IPsOf(e, h);
    }
    forall h | h in watched && IPsOf(e, h) != {} ensures h in p.hosts {
      var ip :| ip in IPsOf(e, h);
      assert ip in e && e[ip].host == h;
    }
    forall ip | ip in e ensures SettledEntry(e, watched, now, ip) == e[ip] {
      KeptHas(e, ip);
    }
    assert SettledEntries(e, watched, now) == e;
    assert SettledHosts(e, watched) == p.hosts;
  }

  lemma PlanAgainIdle(r: Range, hash: Host -> nat, watched: set<Host>, existing: map<Addr, Entry>, now: int, capacity: nat)
    requires watched != {} ==> r.Range? && r.Valid() && HasRoom(r, hash, |existing| + |watched|)
    ensures var p := PlanOf(r, hash, watched, existing, now, capacity);
            var q := PlanOf(r, hash, watched, p.entries, now, capacity);
            q.entries == p.entries && q.hosts == p.hosts && q.evicted == []
  {
    var p := PlanOf(r, hash, watched, existing, now, capacity);
    PlanSound(r, hash, watched, existing, now, capacity);
    PlanServes(r, hash, watched, existing, now, capacity);
    SettleIdle(p, r, watched, now);
    var s := Settle(r, watched, p.entries, now);
    hide Allocate, Inverse, Current, InOrder, Continues, FreeIP, HasRoom, KeepIP, SettledEntries, SettledHosts, KeptEntries;
    assert s.evicted == [];
    assert EvictDown(s, capacity) == s;
    forall h | h in watched ensures Served(s, h, capacity) {
      assert Served(p, h, capacity);
    }
    AllocateServedIsIdle(s, r, hash, watched, capacity);
  }

  // ---- The address 0 ----

  lemma {:induction false} EvictDownSubset(p: Plan, capacity: nat)
    ensures EvictDown(p, capacity).entries.Keys <= p.entries.Keys
    decreases |p.entries|
  {
    if |p.entries| > capacity && RetiredIPs(p.entries) != {} {
      EvictShrinks(p);
      EvictDownSubset(Evict(p), capacity);
    }
  }

  lemma {:induction false} AllocateNonZero(p: Plan, r: Range, hash: Host -> nat, todo: set<Host>, capacity: nat)
    requires todo != {} ==> r.Range? && r.Valid()
    requires 0 !in p.entries
    ensures 0 !in Allocate(p, r, hash, todo, capacity).entries
    decreases |todo|
  {
    hide FreeIP, StrLe;
    if todo != {} {
      var h := LeastHost(todo);
      var q := AllocateOne(p, r, hash, h, capacity);
      assert 0 !in q.entries by {
        if h !in p.hosts && h != "" && !(|p.entries| >= capacity && RetiredIPs(p.entries) == {}) {
          var e := if |p.entries| >= capacity then Evict(p) else p;
          if FreeIP(r, hash(h), e.entries.Keys).Some? {
            FreeIPFresh(r, hash(h), e.entries.Keys);
          }
        }
      }
      AllocateNonZero(q, r, hash, todo - {h}, capacity);
    }
  }

  // No plan reserves the address 0.
  lemma PlanNonZero(r: Range, hash: Host -> nat, watched: set<Host>, existing: map<Addr, Entry>, now: int, capacity: nat)
    requires watched != {} ==> r.Range? && r.Valid()
    requires 0 !in existing
    ensures 0 !in PlanOf(r, hash, watched, existing, now, capacity).entries
  {
    SettleSound(r, watched, existing, now);
    EvictDownSubset(Settle(r, watched, existing, now), capacity);
    AllocateNonZero(EvictDown(Settle(r, watched, existing, now), capacity), r, hash, watched, capacity);
  }
}
