/** What a plan of the fake IPs is, said of its inputs: which reservations it holds, retires, evicts and makes, which
    host has which address, and who goes without. */
module VirtualIPPlanMeaning {
  import opened Options
  import opened FreeVirtualIP
  import opened VirtualIPPlan
  import opened VirtualIPPlanProperties

  // The reservation e of ip counts at `now`: it has a host, lies in the range, and is active or retired for less than
  // 24 hours.
  predicate Counts(r: Range, ip: Addr, e: Entry, now: int) {
    e.host != "" && r.Range? && r.base <= ip < r.base + r.size && (e.Retired? ==> now - e.at < 86400)
  }

  // It is still its host's, retired since when it was or since now, or it was evicted.
  ghost predicate HeldOrEvicted(p: Plan, ip: Addr, e: Entry, now: int) {
    || (&& ip in p.entries && p.entries[ip].host == e.host
        && (p.entries[ip].Retired? ==> p.entries[ip].at == if e.Retired? then e.at else now))
    || (exists i :: 0 <= i < |p.evicted| && p.evicted[i].ip == ip && p.evicted[i].entry.host == e.host)
  }

  // Every reservation of a plan counts. One made before that counts stays its host's unless it is evicted; and there are
  // no others but active ones of watched hosts.
  lemma PlanHoldsExactly(r: Range, hash: Host -> nat, watched: set<Host>, existing: map<Addr, Entry>, now: int, capacity: nat)
    requires watched != {} ==> r.Range? && r.Valid()
    ensures var p := PlanOf(r, hash, watched, existing, now, capacity);
            && (forall ip :: ip in p.entries ==> Counts(r, ip, p.entries[ip], now))
            && (forall ip :: ip in existing && Counts(r, ip, existing[ip], now) ==> HeldOrEvicted(p, ip, existing[ip], now))
            && (forall ip :: ip in p.entries ==>
                  if p.entries[ip].Active? then p.entries[ip].host in watched
                  else ip in existing && existing[ip].host == p.entries[ip].host)
  {
    var p := PlanOf(r, hash, watched, existing, now, capacity);
    var s := Settle(r, watched, existing, now);
    PlanSound(r, hash, watched, existing, now, capacity);
    hide PlanOf, Settle, Sound, Continues, HeldOrEvicted, Counts;
    NothingStale(p, r, watched, now, capacity);
    forall ip | ip in existing && Counts(r, ip, existing[ip], now) ensures HeldOrEvicted(p, ip, existing[ip], now) {
      SettledIs(r, watched, existing, now, ip);
      StaysOrEvicted(s, p, ip, existing[ip], now);
    }
    forall ip | ip in p.entries && p.entries[ip].Retired? ensures ip in existing && existing[ip].host == p.entries[ip].host {
      RetiredWasThere(s, p, ip);
      SettledIs(r, watched, existing, now, ip);
    }
  }

  lemma PlanCounts(r: Range, hash: Host -> nat, watched: set<Host>, existing: map<Addr, Entry>, now: int, capacity: nat, p: Plan)
    requires (watched != {} ==> r.Range? && r.Valid()) && p == PlanOf(r, hash, watched, existing, now, capacity)
    ensures forall ip :: ip in p.entries ==> Counts(r, ip, p.entries[ip], now)
  {
    hide PlanOf, Counts, HeldOrEvicted;
    PlanHoldsExactly(r, hash, watched, existing, now, capacity);
  }

  lemma NothingStale(p: Plan, r: Range, watched: set<Host>, now: int, capacity: nat)
    requires Sound(p, r, watched, now, capacity)
    ensures forall ip :: ip in p.entries ==>
              Counts(r, ip, p.entries[ip], now) && (p.entries[ip].Active? ==> p.entries[ip].host in watched)
  {
    hide InOrder, WithinCapacity;
    forall ip | ip in p.entries ensures Kept(r, ip, p.entries[ip], now) {
    }
  }

  // What was settled is still there, or was evicted ...
  lemma StaysOrEvicted(s: Plan, p: Plan, ip: Addr, e: Entry, now: int)
    requires Continues(s, p) && ip in s.entries && s.entries[ip].host == e.host
    requires s.entries[ip].Retired? ==> s.entries[ip].at == if e.Retired? then e.at else now
    ensures HeldOrEvicted(p, ip, e, now)
  {
    if !(ip in p.entries && p.entries[ip] == s.entries[ip]) {
      var i :| 0 <= i < |p.evicted[|s.evicted|..]| && p.evicted[|s.evicted|..][i] == Eviction(ip, s.entries[ip]);
      assert p.evicted[|s.evicted| + i] == Eviction(ip, s.entries[ip]);
    }
  }

  // ... and what is retired was settled.
  lemma RetiredWasThere(s: Plan, p: Plan, ip: Addr)
    requires Continues(s, p) && ip in p.entries && p.entries[ip].Retired?
    ensures ip in s.entries && s.entries[ip] == p.entries[ip]
  {
  }

  // Settling, of one existing reservation.
  lemma SettledIs(r: Range, watched: set<Host>, existing: map<Addr, Entry>, now: int, ip: Addr)
    ensures var s := Settle(r, watched, existing, now);
            && (ip in s.entries ==> ip in existing && s.entries[ip].host == existing[ip].host)
            && (ip in existing && Counts(r, ip, existing[ip], now) ==>
                  && ip in s.entries && s.entries[ip].host == existing[ip].host
                  && (s.entries[ip].Retired? ==> s.entries[ip].at == if existing[ip].Retired? then existing[ip].at else now))
  {
    hide KeepIP;
    var kept := KeptEntries(r, existing, now);
    if ip in kept {
      KeptHas(kept, ip);
    }
  }

  lemma SoundGives(p: Plan, r: Range, watched: set<Host>, now: int, capacity: nat)
    requires Sound(p, r, watched, now, capacity)
    ensures forall h, ip :: h in p.hosts && p.hosts[h] == ip <==> ip in p.entries && p.entries[ip] == Active(h)
    ensures forall h :: h in p.hosts ==> h in watched && h != ""
  {
    hide InOrder, WithinCapacity;
    forall h | h in p.hosts ensures h in watched && h != "" {
      assert Kept(r, p.hosts[h], p.entries[p.hosts[h]], now);
    }
  }

  // Which host has which address: exactly the active reservations, one a host, of watched hosts only. Retired ones stay
  // within capacity; they were evicted oldest first, the lower address first at the same time, and none that is left
  // comes before one that was evicted.
  lemma PlanGivesExactly(r: Range, hash: Host -> nat, watched: set<Host>, existing: map<Addr, Entry>, now: int, capacity: nat)
    requires watched != {} ==> r.Range? && r.Valid()
    ensures var p := PlanOf(r, hash, watched, existing, now, capacity);
            && (forall h, ip :: h in p.hosts && p.hosts[h] == ip <==> ip in p.entries && p.entries[ip] == Active(h))
            && (forall h :: h in p.hosts ==> h in watched && h != "")
            && (|p.entries| > capacity ==> forall ip :: ip in p.entries ==> p.entries[ip].Active?)
            && (forall i :: 0 <= i < |p.evicted| ==> p.evicted[i].entry.Retired?)
            && (forall i, j :: 0 <= i < j < |p.evicted| ==>
                  var a, b := p.evicted[i], p.evicted[j];
                  a.entry.at < b.entry.at || (a.entry.at == b.entry.at && a.ip < b.ip))
            && (forall i, ip :: 0 <= i < |p.evicted| && ip in p.entries && p.entries[ip].Retired? ==>
                  var a := p.evicted[i];
                  a.entry.at < p.entries[ip].at || (a.entry.at == p.entries[ip].at && a.ip < ip))
  {
    var p := PlanOf(r, hash, watched, existing, now, capacity);
    PlanSound(r, hash, watched, existing, now, capacity);
    hide PlanOf, Settle;
    SoundGives(p, r, watched, now, capacity);
    hide Inverse, Current;
    if |p.entries| > capacity {
      forall ip | ip in p.entries ensures p.entries[ip].Active? {
        assert ip !in RetiredIPs(p.entries);
      }
    }
    forall i, j | 0 <= i < j < |p.evicted|
      ensures p.evicted[i].entry.Retired? && p.evicted[j].entry.Retired?
      ensures p.evicted[i].entry.at < p.evicted[j].entry.at || (p.evicted[i].entry.at == p.evicted[j].entry.at && p.evicted[i].ip < p.evicted[j].ip)
    {
      assert StrictlyBefore(p.evicted[i], p.evicted[j]);
    }
    forall i, ip | 0 <= i < |p.evicted| && ip in p.entries && p.entries[ip].Retired?
      ensures p.evicted[i].entry.Retired?
      ensures p.evicted[i].entry.at < p.entries[ip].at || (p.evicted[i].entry.at == p.entries[ip].at && p.evicted[i].ip < ip)
    {
      assert StrictlyBefore(p.evicted[i], Eviction(ip, p.entries[ip]));
    }
  }

  // A watched host with a reservation that still counts keeps its lowest active one or, if it has none, its lowest
  // retired one, active again.
  lemma PlanPrefers(r: Range, hash: Host -> nat, watched: set<Host>, existing: map<Addr, Entry>, now: int, capacity: nat, h: Host, ip: Addr)
    requires watched != {} ==> r.Range? && r.Valid()
    requires h in watched && h != "" && ip in existing && existing[ip].host == h && r.base <= ip < r.base + r.size
    requires existing[ip].Retired? ==> now - existing[ip].at < 86400
    ensures var p := PlanOf(r, hash, watched, existing, now, capacity);
            && h in p.hosts && p.hosts[h] in existing
            && var kept := p.hosts[h];
               && existing[kept].host == h && r.base <= kept < r.base + r.size
               && (existing[kept].Retired? ==> now - existing[kept].at < 86400)
               && (existing[ip].Active? ==> existing[kept].Active? && kept <= ip)
               && (existing[kept].Retired? ==> kept <= ip)
  {
    var kept := KeptEntries(r, existing, now);
    assert ip in kept && ip in IPsOf(kept, h) && (existing[ip].Active? ==> ip in ActiveOf(kept, h));
    KeepIPIsHosts(kept, h);
    var k := KeepIP(kept, h);
    if ActiveOf(kept, h) != {} {
      assert IsLeast(ActiveOf(kept, h), k);
    } else {
      assert IsLeast(IPsOf(kept, h), k);
    }
    assert h in Settle(r, watched, existing, now).hosts;
    hide PlanOf, Settle;
    PlanKeepsHost(r, hash, watched, existing, now, capacity, h);
  }

  // ---- Capacity ----

  // Beyond capacity there is nothing new.
  ghost predicate NothingNew(s: Plan, p: Plan, capacity: nat) {
    |p.entries| > capacity ==> forall ip :: ip in p.entries ==> ip in s.entries && p.entries[ip] == s.entries[ip]
  }

  lemma {:induction false} EvictDownNothingNew(p: Plan, capacity: nat)
    ensures var q := EvictDown(p, capacity); forall ip :: ip in q.entries ==> ip in p.entries && q.entries[ip] == p.entries[ip]
    decreases |p.entries|
  {
    if |p.entries| > capacity && RetiredIPs(p.entries) != {} {
      EvictShrinks(p);
      EvictDownNothingNew(Evict(p), capacity);
    }
  }

  lemma TurnNothingNew(s: Plan, p: Plan, r: Range, hash: Host -> nat, h: Host, capacity: nat)
    requires r.Range? && r.Valid() && WithinCapacity(p, capacity) && NothingNew(s, p, capacity)
    ensures NothingNew(s, AllocateOne(p, r, hash, h, capacity), capacity)
  {
    hide FreeIP;
    if h !in p.hosts && h != "" && !(|p.entries| >= capacity && RetiredIPs(p.entries) == {}) {
      var e := if |p.entries| >= capacity then Evict(p) else p;
      if |p.entries| >= capacity {
        EvictShrinks(p);
      }
      var free := FreeIP(r, hash(h), e.entries.Keys);
      if free.Some? {
        OneMore(e.entries, free.value, Active(h));
      }
    }
  }

  lemma OneMore(m: map<Addr, Entry>, ip: Addr, e: Entry)
    ensures |m[ip := e]| <= |m| + 1
  {
    assert m[ip := e].Keys == m.Keys + {ip};
    assert |m.Keys| == |m| && |m[ip := e].Keys| == |m[ip := e]|;
  }

  lemma {:induction false} TurnsNothingNew(s: Plan, p: Plan, r: Range, hash: Host -> nat, todo: set<Host>, capacity: nat, watched: set<Host>, now: int)
    requires (todo != {} ==> r.Range? && r.Valid()) && todo <= watched && Sound(p, r, watched, now, capacity) && NothingNew(s, p, capacity)
    ensures NothingNew(s, Allocate(p, r, hash, todo, capacity), capacity)
    decreases |todo|
  {
    hide AllocateOne, Inverse, Current, InOrder, WithinCapacity, Continues, NothingNew, RetiredIPs;
    if todo != {} {
      var h := LeastHost(todo);
      AllocateOneKeeps(p, r, hash, h, capacity, watched, now);
      TurnNothingNew(s, p, r, hash, h, capacity);
      TurnsNothingNew(s, AllocateOne(p, r, hash, h, capacity), r, hash, todo - {h}, capacity, watched, now);
    }
  }

  // A plan goes beyond capacity only with active reservations there were before.
  lemma PlanWithinCapacity(r: Range, hash: Host -> nat, watched: set<Host>, existing: map<Addr, Entry>, now: int, capacity: nat)
    requires watched != {} ==> r.Range? && r.Valid()
    ensures var p := PlanOf(r, hash, watched, existing, now, capacity);
            |p.entries| > capacity ==>
              forall ip :: ip in p.entries ==> p.entries[ip].Active? && ip in existing && existing[ip].host == p.entries[ip].host
  {
    hide PlanOf, Settle, NothingNew;
    var s := Settle(r, watched, existing, now);
    var p := PlanOf(r, hash, watched, existing, now, capacity);
    PlanNothingNew(r, hash, watched, existing, now, capacity);
    PlanSound(r, hash, watched, existing, now, capacity);
    hide Inverse, Current, InOrder, Continues;
    if |p.entries| > capacity {
      forall ip | ip in p.entries ensures p.entries[ip].Active? && ip in existing && existing[ip].host == p.entries[ip].host {
        assert ip !in RetiredIPs(p.entries);
        assert NothingNew(s, p, capacity);
        NewIsOld(s, p, capacity, ip);
        SettledIs(r, watched, existing, now, ip);
      }
    }
  }

  lemma NewIsOld(s: Plan, p: Plan, capacity: nat, ip: Addr)
    requires NothingNew(s, p, capacity) && |p.entries| > capacity && ip in p.entries
    ensures ip in s.entries && p.entries[ip] == s.entries[ip]
  {
  }

  lemma PlanNothingNew(r: Range, hash: Host -> nat, watched: set<Host>, existing: map<Addr, Entry>, now: int, capacity: nat)
    requires watched != {} ==> r.Range? && r.Valid()
    ensures NothingNew(Settle(r, watched, existing, now), PlanOf(r, hash, watched, existing, now, capacity), capacity)
  {
    var s := Settle(r, watched, existing, now);
    SettleSound(r, watched, existing, now);
    hide Settle, Allocate, Inverse, Current, InOrder, Continues;
    EvictDownNothingNew(s, capacity);
    hide EvictDown;
    EvictDownKeeps(s, r, watched, now, capacity);
    TurnsNothingNew(s, EvictDown(s, capacity), r, hash, watched, capacity, watched, now);
  }

  // ---- New addresses ----

  // ip is the first address from the hash on that can be handed out and is neither reserved in the plan nor was before
  // it was evicted.
  ghost predicate FirstFrom(p: Plan, r: Range, hash: nat, ip: Addr)
    requires r.Range? && r.Valid()
  {
    exists k: nat :: ProbedTo(p, r, hash, ip, k)
  }

  ghost predicate ProbedTo(p: Plan, r: Range, hash: nat, ip: Addr, k: nat)
    requires r.Range? && r.Valid()
  {
    && ip == r.base + ProbeAt(r, hash, k) && !Skipped(r, ProbeAt(r, hash, k))
    && forall j: nat :: j < k ==> Skipped(r, ProbeAt(r, hash, j)) || Occupied(p, r.base + ProbeAt(r, hash, j))
  }

  ghost predicate Occupied(p: Plan, ip: Addr) {
    ip in p.entries || exists i :: 0 <= i < |p.evicted| && p.evicted[i].ip == ip
  }

  lemma OccupiedStays(p: Plan, q: Plan, ip: Addr)
    requires Continues(p, q) && Occupied(p, ip)
    ensures Occupied(q, ip)
  {
    if ip in p.entries {
      if !(ip in q.entries && q.entries[ip] == p.entries[ip]) {
        var i :| 0 <= i < |q.evicted[|p.evicted|..]| && q.evicted[|p.evicted|..][i] == Eviction(ip, p.entries[ip]);
        assert q.evicted[|p.evicted| + i].ip == ip;
      }
    } else {
      var i :| 0 <= i < |p.evicted| && p.evicted[i].ip == ip;
      assert q.evicted[i] == p.evicted[i];
    }
  }

  lemma FirstFromStays(p: Plan, q: Plan, r: Range, hash: nat, ip: Addr)
    requires r.Range? && r.Valid() && Continues(p, q) && FirstFrom(p, r, hash, ip)
    ensures FirstFrom(q, r, hash, ip)
  {
    hide Continues, Skipped, ProbeAt, Occupied;
    var k: nat :| ProbedTo(p, r, hash, ip, k);
    forall j: nat | j < k ensures Skipped(r, ProbeAt(r, hash, j)) || Occupied(q, r.base + ProbeAt(r, hash, j)) {
      if !Skipped(r, ProbeAt(r, hash, j)) {
        OccupiedStays(p, q, r.base + ProbeAt(r, hash, j));
      }
    }
    assert ProbedTo(q, r, hash, ip, k);
  }

  lemma FreeIsFirst(p: Plan, r: Range, hash: nat)
    requires r.Range? && r.Valid() && FreeIP(r, hash, p.entries.Keys).Some?
    ensures FirstFrom(p, r, hash, FreeIP(r, hash, p.entries.Keys).value)
  {
    hide FreeIP;
    var k := FreeIPExactly(r, hash, p.entries.Keys);
    assert ProbedTo(p, r, hash, FreeIP(r, hash, p.entries.Keys).value, k);
  }

  // One host's turn.
  lemma TurnGives(p: Plan, r: Range, hash: Host -> nat, h: Host, capacity: nat, watched: set<Host>, now: int)
    requires r.Range? && r.Valid() && h in watched && Sound(p, r, watched, now, capacity) && h !in p.hosts
    ensures var q := AllocateOne(p, r, hash, h, capacity); h in q.hosts ==> FirstFrom(q, r, hash(h), q.hosts[h])
    ensures var q := AllocateOne(p, r, hash, h, capacity); forall g :: g in q.hosts && g != h ==> g in p.hosts
  {
    hide FreeIP, Inverse, Current, InOrder, Continues, FirstFrom;
    if h != "" && !(|p.entries| >= capacity && RetiredIPs(p.entries) == {}) {
      var e := if |p.entries| >= capacity then Evict(p) else p;
      if |p.entries| >= capacity {
        EvictStep(p, r, watched, now);
      }
      var free := FreeIP(r, hash(h), e.entries.Keys);
      if free.Some? {
        FreeIsFirst(e, r, hash(h));
        FreeIPFresh(r, hash(h), e.entries.Keys);
        TakeContinues(e, h, free.value);
        FirstFromStays(e, Take(e, h, free.value), r, hash(h), free.value);
      }
    }
  }

  lemma {:induction false} TurnsGive(p: Plan, r: Range, hash: Host -> nat, todo: set<Host>, capacity: nat, watched: set<Host>, now: int, h: Host)
    requires r.Range? && r.Valid() && todo <= watched && Sound(p, r, watched, now, capacity) && h !in p.hosts
    ensures var q := Allocate(p, r, hash, todo, capacity); h in q.hosts ==> FirstFrom(q, r, hash(h), q.hosts[h])
    decreases |todo|
  {
    hide AllocateOne, Sound, Continues, FirstFrom;
    if todo != {} {
      var g := LeastHost(todo);
      var q := AllocateOne(p, r, hash, g, capacity);
      AllocateOneKeeps(p, r, hash, g, capacity, watched, now);
      AllocateKeeps(q, r, hash, todo - {g}, capacity, watched, now);
      if g !in p.hosts {
        TurnGives(p, r, hash, g, capacity, watched, now);
      } else {
        assert q == p by {
          ServedTurn(p, r, hash, g, capacity);
        }
      }
      if h in q.hosts {
        HostsStay(q, Allocate(p, r, hash, todo, capacity), h);
        FirstFromStays(q, Allocate(p, r, hash, todo, capacity), r, hash(h), q.hosts[h]);
      } else {
        TurnsGive(q, r, hash, todo - {g}, capacity, watched, now, h);
      }
    }
  }

  lemma ServedTurn(p: Plan, r: Range, hash: Host -> nat, g: Host, capacity: nat)
    requires r.Range? && r.Valid() && g in p.hosts
    ensures AllocateOne(p, r, hash, g, capacity) == p
  {
  }

  // A host with no reservation that still counts gets the first address from its hash on that can be handed out and is
  // not reserved by the plan, nor was by a reservation it evicted.
  lemma PlanGivesFirst(r: Range, hash: Host -> nat, watched: set<Host>, existing: map<Addr, Entry>, now: int, capacity: nat, h: Host)
    requires r.Range? && r.Valid()
    requires forall ip :: ip in existing && existing[ip].host == h && r.base <= ip < r.base + r.size ==>
               existing[ip].Retired? && now - existing[ip].at >= 86400
    ensures var p := PlanOf(r, hash, watched, existing, now, capacity); h in p.hosts ==> FirstFrom(p, r, hash(h), p.hosts[h])
  {
    var s := Settle(r, watched, existing, now);
    assert h !in s.hosts;
    SettleSound(r, watched, existing, now);
    hide Settle, EvictDown, Allocate, Inverse, Current, InOrder, Continues, FirstFrom;
    EvictDownKeeps(s, r, watched, now, capacity);
    TurnsGive(EvictDown(s, capacity), r, hash, watched, capacity, watched, now, h);
  }

  // In a range with fewer than 8128 reservations and hosts: a watched host goes without only when the map is full of
  // active reservations, and a plan evicts only when it ends up full.
  lemma PlanServesExactly(r: Range, hash: Host -> nat, watched: set<Host>, existing: map<Addr, Entry>, now: int, capacity: nat)
    requires r.Range? && r.Valid() && |existing| + |watched| < 8128
    ensures var p := PlanOf(r, hash, watched, existing, now, capacity);
            && (forall h :: h in watched && h != "" ==>
                  h in p.hosts || (|p.entries| >= capacity && forall ip :: ip in p.entries ==> p.entries[ip].Active?))
            && (p.evicted != [] ==> |p.entries| >= capacity)
  {
    var p := PlanOf(r, hash, watched, existing, now, capacity);
    var n := |existing| + |watched|;
    if r.six {
      RoomIPv6(r, hash, n);
    } else {
      RoomIPv4(r, hash, n);
    }
    PlanServes(r, hash, watched, existing, now, capacity);
    hide PlanOf;
    forall h | h in watched && h != "" && h !in p.hosts
      ensures |p.entries| >= capacity && forall ip :: ip in p.entries ==> p.entries[ip].Active?
    {
      assert Served(p, h, capacity);
      forall ip | ip in p.entries ensures p.entries[ip].Active? {
        assert ip !in RetiredIPs(p.entries);
      }
    }
  }

  // ---- Who goes first ----

  // g comes before h in the dictionary.
  ghost predicate LexBefore(g: Host, h: Host) {
    exists k :: LexBeforeAt(g, h, k)
  }

  predicate LexBeforeAt(g: Host, h: Host, k: int) {
    0 <= k <= |g| && k < |h| && g[..k] == h[..k] && (k == |g| || g[k] < h[k])
  }

  lemma {:induction false} LexBeforeIsLe(g: Host, h: Host, k: int)
    requires LexBeforeAt(g, h, k)
    ensures StrLe(g, h) && g != h
  {
    if k > 0 {
      assert g[0] == g[..k][0] == h[..k][0] == h[0];
      assert g[1..][..k - 1] == g[..k][1..] && h[1..][..k - 1] == h[..k][1..];
      LexBeforeIsLe(g[1..], h[1..], k - 1);
    }
  }

  ghost predicate IsFull(p: Plan, capacity: nat) {
    |p.entries| >= capacity && RetiredIPs(p.entries) == {}
  }

  lemma {:induction false} FullStays(p: Plan, r: Range, hash: Host -> nat, todo: set<Host>, capacity: nat)
    requires (todo != {} ==> r.Range? && r.Valid()) && IsFull(p, capacity)
    ensures Allocate(p, r, hash, todo, capacity).hosts == p.hosts
    decreases |todo|
  {
    hide StrLe, FreeIP;
    if todo != {} {
      var h := LeastHost(todo);
      var q := AllocateOne(p, r, hash, h, capacity);
      assert q.hosts == p.hosts && q.entries == p.entries;
      FullStays(q, r, hash, todo - {h}, capacity);
    }
  }

  lemma {:induction false} TurnsInOrder(p: Plan, r: Range, hash: Host -> nat, todo: set<Host>, capacity: nat, watched: set<Host>, now: int, g: Host, h: Host)
    requires r.Range? && r.Valid() && HasRoom(r, hash, |p.entries| + |todo|)
    requires todo <= watched && Sound(p, r, watched, now, capacity)
    requires g in todo && h in todo && g !in p.hosts && h !in p.hosts && g != "" && g != h && StrLe(g, h)
    ensures var q := Allocate(p, r, hash, todo, capacity); h in q.hosts ==> g in q.hosts
    decreases |todo|
  {
    hide AllocateOne, Sound, Continues, HasRoom, StrLe, FirstFrom, IsFull;
    var x := LeastHost(todo);
    var q := AllocateOne(p, r, hash, x, capacity);
    var n := |p.entries| + |todo|;
    AllocateOneKeeps(p, r, hash, x, capacity, watched, now);
    LessRoom(r, hash, n, |p.entries|);
    LessRoom(r, hash, n, |q.entries| + |todo - {x}|);
    if x in p.hosts {
      ServedTurn(p, r, hash, x, capacity);
    } else {
      TurnGives(p, r, hash, x, capacity, watched, now);
    }
    if x == g {
      AllocateKeeps(q, r, hash, todo - {x}, capacity, watched, now);
      ServedOrFull(q, g, capacity);
      if g in q.hosts {
        HostsStay(q, Allocate(p, r, hash, todo, capacity), g);
      } else {
        FullStays(q, r, hash, todo - {x}, capacity);
      }
    } else {
      if x == h {
        StrLeTotal(g, h);
      }
      TurnsInOrder(q, r, hash, todo - {x}, capacity, watched, now, g, h);
    }
  }

  lemma ServedOrFull(p: Plan, g: Host, capacity: nat)
    requires Served(p, g, capacity) && g != ""
    ensures g in p.hosts || IsFull(p, capacity)
  {
  }

  // Of two watched hosts without a reservation that still counts, the later in the dictionary has an address only if the
  // earlier has one.
  lemma PlanServesInOrder(r: Range, hash: Host -> nat, watched: set<Host>, existing: map<Addr, Entry>, now: int, capacity: nat, g: Host, h: Host)
    requires r.Range? && r.Valid() && |existing| + |watched| < 8128
    requires g in watched && h in watched && g != "" && LexBefore(g, h)
    requires forall ip :: ip in existing && (existing[ip].host == g || existing[ip].host == h) && r.base <= ip < r.base + r.size ==>
               existing[ip].Retired? && now - existing[ip].at >= 86400
    ensures var p := PlanOf(r, hash, watched, existing, now, capacity); h in p.hosts ==> g in p.hosts
  {
    var k :| LexBeforeAt(g, h, k);
    LexBeforeIsLe(g, h, k);
    var s := Settle(r, watched, existing, now);
    assert g !in s.hosts && h !in s.hosts;
    SettleSound(r, watched, existing, now);
    var n := |existing| + |watched|;
    if r.six {
      RoomIPv6(r, hash, n);
    } else {
      RoomIPv4(r, hash, n);
    }
    KeysSmaller(s.entries, existing);
    hide Settle, EvictDown, Allocate, Inverse, Current, InOrder, Continues, HasRoom, StrLe;
    EvictDownKeeps(s, r, watched, now, capacity);
    var d := EvictDown(s, capacity);
    LessRoom(r, hash, n, |d.entries| + |watched|);
    TurnsInOrder(d, r, hash, watched, capacity, watched, now, g, h);
  }
}
