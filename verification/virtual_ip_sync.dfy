/** The virtual IP maps shared by the controller and the data plane, what keeps them consistent, and
    what each operation on them does. */
module VirtualIPMaps {
  import opened Options
  import opened FreeVirtualIP
  import opened VirtualIPPlan
  import opened VipUpstream

  // vip_host_ip's value: a host's fake IPv4 and fake IPv6, 0 for none.
  datatype HostVal = HostVal(ip4: nat, ip6: nat)

  // vip_host_ip, vip_ip_host and vip_upstream.
  datatype Maps = Maps(hostIP: map<Host, HostVal>, ipHost: map<IP, Entry>, upstream: map<IP, seq<Slot>>)

  function FakeOf(v: HostVal, six: bool): (r: IP) {
    if six then V6(v.ip6) else V4(v.ip4)
  }

  predicate HasFake(v: HostVal, ip: IP) {
    ip.n != 0 && (ip == V4(v.ip4) || ip == V6(v.ip6))
  }

  // ---- The invariant ----

  // Every fake IP of a host leads back to that host.
  ghost predicate Resolvable(m: Maps) {
    forall h, ip :: h in m.hostIP && HasFake(m.hostIP[h], ip) ==> ip in m.ipHost && m.ipHost[ip].host == h
  }

  // Every address recorded for a reserved fake IP was returned for its current host.
  ghost predicate Owned(m: Maps) {
    && (forall ip :: ip in m.upstream ==> IsUpstream(m.upstream[ip]))
    && (forall ip, i :: ip in m.upstream && ip in m.ipHost && 0 <= i < SLOTS && Live(m.upstream[ip][i]) ==>
          m.upstream[ip][i].host == m.ipHost[ip].host)
  }

  // The all-zero addresses are never reserved: they stand for "none".
  ghost predicate ZeroFree(entries: map<IP, Entry>) {
    forall ip :: ip in entries ==> ip.n != 0
  }

  ghost predicate Safe(m: Maps) {
    Resolvable(m) && Owned(m) && ZeroFree(m.ipHost)
  }

  // ---- What a DNS answer can change ----

  // From m to m' only upstreams changed, none went, and every address added under a fake IP came from an answer for
  // a host that holds it.
  ghost predicate Answered(m: Maps, m': Maps) {
    && m'.hostIP == m.hostIP && m'.ipHost == m.ipHost && m.upstream.Keys <= m'.upstream.Keys
    && (forall ip :: ip in m'.upstream ==> IsUpstream(m'.upstream[ip]))
    && (forall ip, i :: ip in m'.upstream && 0 <= i < SLOTS && Live(m'.upstream[ip][i]) ==>
          Recalled(m, ip, m'.upstream[ip][i].host))
    && (forall ip :: ip in m'.upstream && ip !in m.upstream ==> Handed(m, ip))
  }

  // The host of an address under ip: recorded before, or holding ip now.
  ghost predicate Recalled(m: Maps, ip: IP, h: Host) {
    || (ip in m.upstream && exists i :: 0 <= i < |m.upstream[ip]| && Live(m.upstream[ip][i]) && m.upstream[ip][i].host == h)
    || (h in m.hostIP && (ip == FakeOf(m.hostIP[h], true) || ip == FakeOf(m.hostIP[h], false)))
  }

  // Some host's fake IP (or, unreserved, the all-zero address of a host without one).
  ghost predicate Handed(m: Maps, ip: IP) {
    exists h :: h in m.hostIP && (ip == FakeOf(m.hostIP[h], true) || ip == FakeOf(m.hostIP[h], false))
  }

  lemma AnsweredSelf(m: Maps)
    requires Owned(m)
    ensures Answered(m, m)
  {
    forall ip, i | ip in m.upstream && 0 <= i < SLOTS && Live(m.upstream[ip][i])
      ensures Recalled(m, ip, m.upstream[ip][i].host)
    {
    }
  }

  lemma AnsweredTrans(a: Maps, b: Maps, c: Maps)
    requires Answered(a, b) && Answered(b, c)
    ensures Answered(a, c)
  {
    forall ip, i | ip in c.upstream && 0 <= i < SLOTS && Live(c.upstream[ip][i])
      ensures Recalled(a, ip, c.upstream[ip][i].host)
    {
      var h := c.upstream[ip][i].host;
      assert Recalled(b, ip, h);
      if ip in b.upstream && exists k :: 0 <= k < |b.upstream[ip]| && Live(b.upstream[ip][k]) && b.upstream[ip][k].host == h {
        var k :| 0 <= k < |b.upstream[ip]| && Live(b.upstream[ip][k]) && b.upstream[ip][k].host == h;
        assert Recalled(a, ip, b.upstream[ip][k].host);
      }
    }
    forall ip | ip in c.upstream && ip !in a.upstream ensures Handed(a, ip) {
      if ip !in b.upstream {
        assert Handed(b, ip);
      }
    }
  }

  // Answers keep the maps safe.
  lemma AnsweredSafe(m: Maps, m': Maps)
    requires Safe(m) && Answered(m, m')
    ensures Safe(m')
  {
    forall ip, i | ip in m'.upstream && ip in m'.ipHost && 0 <= i < SLOTS && Live(m'.upstream[ip][i])
      ensures m'.upstream[ip][i].host == m'.ipHost[ip].host
    {
      var h := m'.upstream[ip][i].host;
      assert Recalled(m, ip, h);
      if h in m.hostIP && (ip == FakeOf(m.hostIP[h], true) || ip == FakeOf(m.hostIP[h], false)) {
        assert HasFake(m.hostIP[h], ip);
      }
    }
  }

  // ---- Connect ----

  datatype Connect = NotFake | Refused | Redirected(dst: IP, host: Host)

  predicate InRange(r4: Range, r6: Range, ip: IP) {
    match ip
    case V4(n) => r4.Contains(n)
    case V6(n) => r6.Contains(n)
  }

  // Where a connect to dst goes: anywhere but a fake IP is left alone; a fake IP that is reserved and has
  // a picked address of its family leads there, for the reservation's host; any other is refused.
  ghost predicate Goes(m: Maps, r4: Range, r6: Range, dst: IP, now: nat, rnd: nat, c: Connect) {
    if !InRange(r4, r6, dst) then c == NotFake
    else if dst !in m.ipHost || dst !in m.upstream || |m.upstream[dst]| != SLOTS then c == Refused
    else exists pick :: Picked(m.upstream[dst], now, rnd, pick) && c == Leads(m, dst, pick)
  }

  ghost function Leads(m: Maps, dst: IP, pick: Option<nat>): (r: Connect)
    requires dst in m.ipHost && dst in m.upstream && |m.upstream[dst]| == SLOTS
  {
    if pick.None? || pick.value >= SLOTS || m.upstream[dst][pick.value].ip.V4? != dst.V4? then Refused
    else Redirected(m.upstream[dst][pick.value].ip, m.ipHost[dst].host)
  }

  // vip_redirect
  method VipRedirect(m: Maps, r4: Range, r6: Range, dst: IP, now: nat, rnd: nat) returns (c: Connect)
    requires Owned(m)
    ensures Goes(m, r4, r6, dst, now, rnd, c)
  {
    if !InRange(r4, r6, dst) {
      return NotFake;
    }
    if dst !in m.ipHost || dst !in m.upstream {
      return Refused;
    }
    var pick := VipUpstreamPick(m.upstream[dst], now, rnd);
    assert Goes(m, r4, r6, dst, now, rnd, Leads(m, dst, pick));
    if pick.None? || m.upstream[dst][pick.value].ip.V4? != dst.V4? {
      return Refused;
    }
    c := Redirected(m.upstream[dst][pick.value].ip, m.ipHost[dst].host);
  }

  lemma GoesOneWay(m: Maps, r4: Range, r6: Range, dst: IP, now: nat, rnd: nat, c: Connect, d: Connect)
    requires Goes(m, r4, r6, dst, now, rnd, c) && Goes(m, r4, r6, dst, now, rnd, d)
    ensures c == d
  {
    if InRange(r4, r6, dst) && dst in m.ipHost && dst in m.upstream && |m.upstream[dst]| == SLOTS {
      var p :| Picked(m.upstream[dst], now, rnd, p) && c == Leads(m, dst, p);
      var q :| Picked(m.upstream[dst], now, rnd, q) && d == Leads(m, dst, q);
      PickedOnce(m.upstream[dst], now, rnd, p, q);
    }
  }

  // In safe maps, a redirected connect goes to an address that was returned in a DNS answer for the host
  // its fake IP is reserved for.
  lemma ConnectGoesToItsHost(m: Maps, r4: Range, r6: Range, dst: IP, now: nat, rnd: nat, c: Connect)
    requires Safe(m) && Goes(m, r4, r6, dst, now, rnd, c) && c.Redirected?
    ensures InRange(r4, r6, dst) && dst in m.ipHost && m.ipHost[dst].host == c.host
    ensures dst in m.upstream && exists i :: 0 <= i < SLOTS && HeldFor(m.upstream[dst], i, c.dst, c.host)
  {
    assert |m.upstream[dst]| == SLOTS;
    var pick :| Picked(m.upstream[dst], now, rnd, pick) && c == Leads(m, dst, pick);
    assert HeldFor(m.upstream[dst], pick.value, c.dst, c.host);
  }

  // A connect in the maps' own terms. Outside both ranges it is passed on. A fake IP that is not reserved, or has no
  // address recorded, is refused. Otherwise it goes to a recorded address of its family, not expired if any is not and
  // else the last to expire, for the reservation's host; only where another family's is picked is it refused.
  lemma ConnectExactly(m: Maps, r4: Range, r6: Range, dst: IP, now: nat, rnd: nat, c: Connect)
    requires Owned(m) && Goes(m, r4, r6, dst, now, rnd, c)
    ensures c.NotFake? <==> !(if dst.V4? then r4.Range? && r4.base <= dst.n < r4.base + r4.size
                              else r6.Range? && r6.base <= dst.n < r6.base + r6.size)
    ensures c.Redirected? ==>
              && dst in m.ipHost && dst in m.upstream && c.host == m.ipHost[dst].host && c.dst.V4? == dst.V4?
              && exists i :: 0 <= i < 4 && Best(m.upstream[dst], now, i) && m.upstream[dst][i].ip == c.dst
    ensures c.Refused? ==>
              || dst !in m.ipHost || dst !in m.upstream || (forall i :: 0 <= i < 4 ==> m.upstream[dst][i].expires == 0)
              || exists i :: 0 <= i < 4 && Best(m.upstream[dst], now, i) && m.upstream[dst][i].ip.V4? != dst.V4?
  {
    if InRange(r4, r6, dst) && dst in m.ipHost && dst in m.upstream {
      assert |m.upstream[dst]| == SLOTS;
      var pick :| Picked(m.upstream[dst], now, rnd, pick) && c == Leads(m, dst, pick);
      if pick.Some? {
        PickedIsBest(m.upstream[dst], now, rnd, pick);
      }
    }
  }

  // A recorded address that has not expired or, if all have, one that expired last.
  predicate Best(v: seq<Slot>, now: nat, i: int)
    requires |v| == 4
  {
    && 0 <= i < 4 && v[i].expires != 0
    && (v[i].expires > now || forall j :: 0 <= j < 4 ==> v[j].expires <= now && v[j].expires <= v[i].expires)
  }

  lemma PickedIsBest(v: seq<Slot>, now: nat, rnd: nat, pick: Option<nat>)
    requires |v| == 4 && Picked(v, now, rnd, pick) && pick.Some?
    ensures Best(v, now, pick.value)
  {
    var four: nat := SLOTS;
    if Unexpired(v, now, four) == 0 {
      forall j | 0 <= j < 4 ensures v[j].expires <= now {
        UnexpiredMonotone(v, now, j + 1, four);
      }
    }
  }

  // Slot i holds ip, recorded from an answer for host.
  predicate HeldFor(v: seq<Slot>, i: int, ip: IP, host: Host) {
    0 <= i < |v| && Live(v[i]) && v[i].ip == ip && v[i].host == host
  }

  // ---- Sync, operation by operation ----

  // What one sync works from: the maps' content when it read them, and its plan.
  datatype Sync = Sync(existing: map<IP, Entry>, current: map<Host, HostVal>, plan: map<IP, Entry>)

  // A value a host may be given: every fake IP in it is reserved for the host in the plan.
  ghost predicate Granted(s: Sync, h: Host, v: HostVal) {
    forall ip :: HasFake(v, ip) ==> ip in s.plan && s.plan[ip] == Active(h)
  }

  // dropsVirtualIP: whether going from cur to want takes a fake IP away.
  predicate Drops(cur: HostVal, want: HostVal) {
    (cur.ip4 != 0 && cur.ip4 != want.ip4) || (cur.ip6 != 0 && cur.ip6 != want.ip6)
  }

  // No fake IP handed out now goes away or changes host in the plan.
  ghost predicate Stable(s: Sync, m: Maps) {
    forall h, ip :: h in m.hostIP && HasFake(m.hostIP[h], ip) ==>
      ip in s.existing && s.existing[ip].host == h && ip in s.plan && s.plan[ip].host == h
  }

  // Each reservation is as it was or as planned, and none that stays is missing.
  ghost predicate Between(s: Sync, m: Maps) {
    && (forall ip :: ip in m.ipHost ==>
          (ip in s.existing && m.ipHost[ip] == s.existing[ip]) || (ip in s.plan && m.ipHost[ip] == s.plan[ip]))
    && (forall ip :: ip in s.existing && ip in s.plan ==> ip in m.ipHost)
    && ZeroFree(s.existing) && ZeroFree(s.plan)
  }

  // The upstreams of a fake IP that is new, gone or another host's are stale (pruneUpstreams).
  predicate Stale(s: Sync, ip: IP) {
    ip !in s.plan || ip !in s.existing || s.existing[ip].host != s.plan[ip].host
  }

  ghost predicate Pruned(s: Sync, m: Maps) {
    forall ip :: ip in m.upstream && ip in s.plan ==> !Stale(s, ip)
  }

  // Dropping a host's entry.
  lemma DropHost(m: Maps, h: Host)
    requires Safe(m)
    ensures Safe(m.(hostIP := m.hostIP - {h}))
  {
  }

  // Once no entry holds a fake IP the plan takes from it, what is handed out is stable.
  lemma DroppedIsStable(s: Sync, m: Maps, want: map<Host, HostVal>)
    requires Safe(m) && m.ipHost == s.existing && ZeroFree(s.plan)
    requires forall h :: h in m.hostIP ==> h in want && !Drops(m.hostIP[h], want[h]) && Granted(s, h, want[h])
    ensures Stable(s, m) && Between(s, m)
  {
    hide Owned, ZeroFree;
    forall h, ip | h in m.hostIP && HasFake(m.hostIP[h], ip)
      ensures ip in s.existing && s.existing[ip].host == h && ip in s.plan && s.plan[ip].host == h
    {
      assert HasFake(want[h], ip);
    }
  }

  // Releasing a reservation that is not in the plan.
  lemma Release(s: Sync, m: Maps, ip: IP)
    requires Safe(m) && Stable(s, m) && Between(s, m) && ip !in s.plan
    ensures var m' := m.(ipHost := m.ipHost - {ip}); Safe(m') && Stable(s, m') && Between(s, m')
  {
  }

  lemma Prune(s: Sync, m: Maps, ip: IP)
    requires Safe(m) && Stable(s, m) && Between(s, m)
    ensures var m' := m.(upstream := m.upstream - {ip}); Safe(m') && Stable(s, m') && Between(s, m')
  {
  }

  // Writing a reservation, when the stale upstreams are gone.
  lemma Reserve(s: Sync, m: Maps, ip: IP)
    requires Safe(m) && Stable(s, m) && Between(s, m) && Pruned(s, m) && ip in s.plan
    ensures var m' := m.(ipHost := m.ipHost[ip := s.plan[ip]]); Safe(m') && Stable(s, m') && Between(s, m') && Pruned(s, m')
  {
  }

  // Handing a host fake IPs whose reservations are written.
  lemma Assign(m: Maps, h: Host, v: HostVal)
    requires Safe(m) && forall ip :: HasFake(v, ip) ==> ip in m.ipHost && m.ipHost[ip].host == h
    ensures Safe(m.(hostIP := m.hostIP[h := v]))
  {
  }

  // DNS answers in between do not undo any of it: no answer can record an address under a fake IP that
  // changes hands.
  lemma AnsweredKeeps(s: Sync, m: Maps, m': Maps)
    requires Safe(m) && Answered(m, m')
    ensures Stable(s, m) ==> Stable(s, m')
    ensures Between(s, m) ==> Between(s, m')
    ensures Stable(s, m) && Between(s, m) && Pruned(s, m) ==> Pruned(s, m')
  {
    if Stable(s, m) && Between(s, m) && Pruned(s, m) {
      forall ip | ip in m'.upstream && ip in s.plan ensures !Stale(s, ip) {
        if ip !in m.upstream {
          assert Handed(m, ip);
          var h :| h in m.hostIP && (ip == FakeOf(m.hostIP[h], true) || ip == FakeOf(m.hostIP[h], false));
          assert HasFake(m.hostIP[h], ip);
        }
      }
    }
  }
}
