/** The uprobe manager's bindings: binding, rebinding and unbinding pods and syncing secrets, as edits of
    secret_acl and vip_pod_host, and how far the edited maps agree with what the bindings grant. */
module GrantsManager {
  import opened Options
  import opened VipUpstream
  import opened SecretMap
  import opened Shadows
  import opened Grants

  // The manager's fields, and the two maps (all values are 1, so a map is its keys). `vips`: virtual IPs are
  // configured; `anyHost`: audit mode.
  datatype State = State(bindings: map<Uid, Binding>, snapshot: seq<Secret>, acl: set<AclKey>, podHost: set<PodHost>,
                         anyHost: bool, vips: bool)

  datatype Op =
    | BindSecrets(uid: Uid, ips: seq<IP>, cgroups: seq<nat>, refs: seq<Ref>)
    | BindNetwork(uid: Uid, ips: seq<IP>, refs: seq<Ref>)
    | BindContainer(uid: Uid, ips: seq<IP>, cgroup: nat, refs: seq<Ref>)
    | Unbind(uid: Uid)
    | Sync(snapshot: seq<Secret>)
    | SetMode(audit: bool)

  predicate Binds(op: Op) {
    op.BindSecrets? || op.BindNetwork? || op.BindContainer?
  }

  function Current(bindings: map<Uid, Binding>, uid: Uid): (r: Binding) {
    if uid in bindings then bindings[uid] else NO_BINDING
  }

  // The binding a bind records: a network bind keeps the containers, a container bind keeps the containers
  // and the addresses, if any.
  function NewBinding(bindings: map<Uid, Binding>, op: Op): (r: Binding)
    requires Binds(op)
  {
    var cur := Current(bindings, op.uid);
    match op
    case BindSecrets(_, ips, cgroups, refs) => Binding(ips, cgroups, refs)
    case BindNetwork(_, ips, refs) => Binding(ips, cur.cgroups, refs)
    case BindContainer(_, ips, cg, refs) =>
      Binding(if |cur.podIPs| > 0 then cur.podIPs else ips, if cg in cur.cgroups then cur.cgroups else cur.cgroups + [cg], refs)
  }

  // ---- What an operation does to the maps ----

  // A rebind revokes what the previous binding granted and no binding grants now.
  ghost predicate LosesAcl(s: State, uid: Uid, b: Binding, a: AclKey) {
    && uid in s.bindings && AclGrants(Indexed(s.snapshot), s.bindings[uid], a) && !AclGrants(Indexed(s.snapshot), b, a)
    && !InSecretACL(s.snapshot, s.bindings[uid := b], a)
  }

  ghost predicate LosesHost(s: State, uid: Uid, b: Binding, p: PodHost) {
    && uid in s.bindings
    && HostGrants(Indexed(s.snapshot), s.bindings[uid], s.anyHost, p) && !HostGrants(Indexed(s.snapshot), b, s.anyHost, p)
    && !InVipPodHosts(s.snapshot, s.bindings[uid := b], s.anyHost, p)
  }

  ghost predicate Bound(s: State, uid: Uid, b: Binding, s': State) {
    && s' == s.(bindings := s.bindings[uid := b], acl := s'.acl, podHost := s'.podHost)
    && (forall a :: a in s'.acl <==> (a in s.acl || AclGrants(Indexed(s.snapshot), b, a)) && !LosesAcl(s, uid, b, a))
    && (if s.vips then
          forall p :: p in s'.podHost <==>
            (p in s.podHost || HostGrants(Indexed(s.snapshot), b, s.anyHost, p)) && !LosesHost(s, uid, b, p)
        else s'.podHost == s.podHost)
  }

  // Unbinding drops every entry of the pod's cgroups, and recomputes the hosts.
  ghost predicate Unbound(s: State, uid: Uid, s': State) {
    if uid !in s.bindings then s' == s else
    && s' == s.(bindings := s.bindings - {uid}, acl := s'.acl, podHost := s'.podHost)
    && (forall a :: a in s'.acl <==> a in s.acl && a.cgroup !in s.bindings[uid].cgroups)
    && (if s.vips && |s.bindings[uid].podIPs| > 0 then IsVipPodHosts(s.snapshot, s'.bindings, s.anyHost, s'.podHost)
        else s'.podHost == s.podHost)
  }

  ghost predicate SyncedTo(s: State, snapshot: seq<Secret>, s': State) {
    && s' == s.(snapshot := snapshot, acl := s'.acl, podHost := s'.podHost)
    && IsSecretACL(snapshot, s.bindings, s'.acl)
    && (if s.vips then IsVipPodHosts(snapshot, s.bindings, s.anyHost, s'.podHost) else s'.podHost == s.podHost)
  }

  ghost predicate Step(s: State, op: Op, s': State) {
    match op
    case Unbind(uid) => Unbound(s, uid, s')
    case Sync(snapshot) => SyncedTo(s, snapshot, s')
    case SetMode(audit) => s' == s.(anyHost := audit)
    case _ => Bound(s, op.uid, NewBinding(s.bindings, op), s')
  }

  // ---- The manager ----

  class UprobeManager {
    var bindings: map<Uid, Binding>
    var lastSnapshot: seq<Secret>
    var secretAcl: set<AclKey>
    var vipPodHost: set<PodHost>
    var anyHost: bool
    const vips: bool

    function Value(): (r: State)
      reads this
    {
      State(bindings, lastSnapshot, secretAcl, vipPodHost, anyHost, vips)
    }

    constructor (vips: bool)
      ensures Value() == State(map[], [], {}, {}, false, vips)
    {
      this.vips := vips;
      bindings, lastSnapshot, secretAcl, vipPodHost, anyHost := map[], [], {}, {}, false;
    }

    method SetSecretBindingMode(audit: bool)
      modifies this
      ensures Step(old(Value()), SetMode(audit), Value())
      ensures anyHost == audit && bindings == old(bindings) && lastSnapshot == old(lastSnapshot)
      ensures secretAcl == old(secretAcl) && vipPodHost == old(vipPodHost)
    {
      anyHost := audit;
    }

    method BindPodSecrets(uid: Uid, ips: seq<IP>, cgroups: seq<nat>, refs: seq<Ref>)
      modifies this
      ensures Step(old(Value()), BindSecrets(uid, ips, cgroups, refs), Value())
      ensures bindings == old(bindings)[uid := Binding(ips, cgroups, refs)]
    {
      hide Bound;
      BindLocked(uid, Binding(ips, cgroups, refs));
    }

    method BindPodNetwork(uid: Uid, ips: seq<IP>, refs: seq<Ref>)
      modifies this
      ensures Step(old(Value()), BindNetwork(uid, ips, refs), Value())
      ensures bindings == old(bindings)[uid := Binding(ips, if uid in old(bindings) then old(bindings)[uid].cgroups else [], refs)]
    {
      hide Bound;
      BindLocked(uid, Binding(ips, Current(bindings, uid).cgroups, refs));
    }

    method BindPodContainer(uid: Uid, ips: seq<IP>, cgroup: nat, refs: seq<Ref>)
      modifies this
      ensures Step(old(Value()), BindContainer(uid, ips, cgroup, refs), Value())
      ensures uid in bindings && bindings == old(bindings)[uid := bindings[uid]] && bindings[uid].refs == refs
      ensures bindings[uid].podIPs == if uid in old(bindings) && old(bindings)[uid].podIPs != [] then old(bindings)[uid].podIPs else ips
      ensures var had := if uid in old(bindings) then old(bindings)[uid].cgroups else [];
              bindings[uid].cgroups == if cgroup in had then had else had + [cgroup]
    {
      hide Bound;
      var cur := Current(bindings, uid);
      var podIPs := ips;
      if |cur.podIPs| > 0 {
        podIPs := cur.podIPs;
      }
      var cgroups := cur.cgroups;
      if cgroup !in cgroups {
        cgroups := cgroups + [cgroup];
      }
      BindLocked(uid, Binding(podIPs, cgroups, refs));
    }

    // bindLocked: grants b, then revokes what the previous binding granted that b does not.
    method BindLocked(uid: Uid, b: Binding)
      modifies this
      ensures Bound(old(Value()), uid, b, Value()) && bindings == old(bindings)[uid := b]
    {
      hide AclGrants, HostGrants, InSecretACL, InVipPodHosts, Indexed;
      var rebind := uid in bindings;
      var prev := Current(bindings, uid);
      bindings := bindings[uid := b];
      var ix := IndexSecrets(lastSnapshot);
      var acl := AclOf(ix, b);
      var left := acl;
      while left != {}
        invariant left <= acl && secretAcl == old(secretAcl) + (acl - left)
        invariant Value() == old(Value()).(bindings := old(bindings)[uid := b], acl := secretAcl)
        decreases |left|
      {
        var a :| a in left;
        left := left - {a};
        secretAcl := secretAcl + {a};
      }
      var hosts: set<PodHost> := {};
      if vips {
        hosts := PodHostsOf(ix, b, anyHost);
        vipPodHost := vipPodHost + hosts;
      }
      if rebind {
        RevokeLost(prev, acl, hosts);
      }
    }

    // revokeLostLocked, for the binding prev that was replaced by one that grants acl and hosts.
    method RevokeLost(prev: Binding, acl: set<AclKey>, hosts: set<PodHost>)
      modifies this`secretAcl, this`vipPodHost
      ensures forall a :: a in secretAcl <==>
                (a in old(secretAcl)
                 && !(AclGrants(Indexed(lastSnapshot), prev, a) && a !in acl && !InSecretACL(lastSnapshot, bindings, a)))
      ensures vips ==> forall p :: p in vipPodHost <==>
                (p in old(vipPodHost)
                 && !(HostGrants(Indexed(lastSnapshot), prev, anyHost, p) && p !in hosts
                      && !InVipPodHosts(lastSnapshot, bindings, anyHost, p)))
      ensures !vips ==> vipPodHost == old(vipPodHost)
    {
      hide AclGrants, HostGrants, InSecretACL, InVipPodHosts, Indexed;
      var ix := IndexSecrets(lastSnapshot);
      var had := AclOf(ix, prev);
      var lostAcl := had - acl;
      assert forall a :: AclGrants(Indexed(lastSnapshot), prev, a) && a !in acl <==> a in lostAcl;
      if lostAcl != {} {
        var kept := SecretACL(lastSnapshot, bindings);
        secretAcl := secretAcl - (lostAcl - kept);
      }
      if vips {
        var hadHosts := PodHostsOf(ix, prev, anyHost);
        var lostHosts := hadHosts - hosts;
        assert forall p :: HostGrants(Indexed(lastSnapshot), prev, anyHost, p) && p !in hosts <==> p in lostHosts;
        if lostHosts != {} {
          var kept := VipPodHosts(lastSnapshot, bindings, anyHost);
          vipPodHost := vipPodHost - (lostHosts - kept);
        }
      }
    }

    method UnbindPod(uid: Uid)
      modifies this
      ensures Step(old(Value()), Unbind(uid), Value())
    {
      hide InVipPodHosts;
      if uid !in bindings {
        return;
      }
      var b := bindings[uid];
      bindings := bindings - {uid};
      var stale := set a | a in secretAcl && a.cgroup in b.cgroups;
      var left := stale;
      while left != {}
        invariant left <= stale && secretAcl == old(secretAcl) - (stale - left)
        invariant Value() == old(Value()).(bindings := old(bindings) - {uid}, acl := secretAcl)
        decreases |left|
      {
        var a :| a in left;
        left := left - {a};
        secretAcl := secretAcl - {a};
      }
      assert forall a :: a in secretAcl <==> a in old(secretAcl) && a.cgroup !in b.cgroups;
      if vips && |b.podIPs| > 0 {
        SyncVipPodHost();
      }
    }

    // syncVipPodHost: adds what is missing, removes what is not granted.
    method SyncVipPodHost()
      modifies this`vipPodHost
      ensures IsVipPodHosts(lastSnapshot, bindings, anyHost, vipPodHost)
    {
      hide InVipPodHosts;
      var desired := VipPodHosts(lastSnapshot, bindings, anyHost);
      var stale := vipPodHost - desired;
      vipPodHost := vipPodHost + (desired - vipPodHost);
      vipPodHost := vipPodHost - stale;
    }

    // syncSecretACL
    method SyncSecretACL()
      modifies this`secretAcl
      ensures IsSecretACL(lastSnapshot, bindings, secretAcl)
    {
      hide InSecretACL;
      var desired := SecretACL(lastSnapshot, bindings);
      var stale := secretAcl - desired;
      secretAcl := secretAcl + (desired - secretAcl);
      secretAcl := secretAcl - stale;
    }

    // The part of SyncSecrets under the lock.
    method SyncSecrets(snapshot: seq<Secret>)
      modifies this
      ensures Step(old(Value()), Sync(snapshot), Value())
    {
      hide InSecretACL, InVipPodHosts;
      lastSnapshot := snapshot;
      SyncSecretACL();
      if vips {
        SyncVipPodHost();
      }
    }
  }

  // ---- How far the maps agree with the bindings ----

  // The access list never allows more than the bindings grant.
  ghost predicate WithinGrants(s: State) {
    forall a :: a in s.acl ==> InSecretACL(s.snapshot, s.bindings, a)
  }

  ghost predicate AclExact(s: State) {
    IsSecretACL(s.snapshot, s.bindings, s.acl)
  }

  ghost predicate HostsExact(s: State) {
    s.vips ==> IsVipPodHosts(s.snapshot, s.bindings, s.anyHost, s.podHost)
  }

  // No other binding has a container in the pod's cgroups.
  predicate OwnCgroups(bindings: map<Uid, Binding>, uid: Uid) {
    forall u, cg :: uid in bindings && u in bindings && u != uid && cg in bindings[u].cgroups ==> cg !in bindings[uid].cgroups
  }

  lemma OthersGrantAcl(snapshot: seq<Secret>, bindings: map<Uid, Binding>, uid: Uid, b: Binding, a: AclKey)
    ensures InSecretACL(snapshot, bindings[uid := b], a) <==>
            InSecretACL(snapshot, bindings - {uid}, a) || AclGrants(Indexed(snapshot), b, a)
    ensures uid in bindings ==> (InSecretACL(snapshot, bindings, a) <==>
            InSecretACL(snapshot, bindings - {uid}, a) || AclGrants(Indexed(snapshot), bindings[uid], a))
    ensures uid !in bindings ==> bindings - {uid} == bindings
  {
    hide AclGrants, Indexed;
    var ix, rest, more := Indexed(snapshot), bindings - {uid}, bindings[uid := b];
    assert AclGrants(ix, b, a) ==> uid in more && AclGrants(ix, more[uid], a);
    if u :| u in rest && AclGrants(ix, rest[u], a) {
      assert u in bindings && AclGrants(ix, bindings[u], a);
      assert u in more && AclGrants(ix, more[u], a);
    }
    if u :| u in more && AclGrants(ix, more[u], a) {
      assert u != uid ==> u in rest && AclGrants(ix, rest[u], a);
    }
    if u :| u in bindings && AclGrants(ix, bindings[u], a) {
      assert u != uid ==> u in rest && AclGrants(ix, rest[u], a);
    }
  }

  lemma OthersGrantHost(snapshot: seq<Secret>, bindings: map<Uid, Binding>, anyHost: bool, uid: Uid, b: Binding, p: PodHost)
    ensures InVipPodHosts(snapshot, bindings[uid := b], anyHost, p) <==>
            InVipPodHosts(snapshot, bindings - {uid}, anyHost, p) || HostGrants(Indexed(snapshot), b, anyHost, p)
    ensures uid in bindings ==> (InVipPodHosts(snapshot, bindings, anyHost, p) <==>
            InVipPodHosts(snapshot, bindings - {uid}, anyHost, p) || HostGrants(Indexed(snapshot), bindings[uid], anyHost, p))
    ensures uid !in bindings ==> bindings - {uid} == bindings
  {
    hide HostGrants, Indexed;
    var ix, rest, more := Indexed(snapshot), bindings - {uid}, bindings[uid := b];
    assert HostGrants(ix, b, anyHost, p) ==> uid in more && HostGrants(ix, more[uid], anyHost, p);
    if u :| u in rest && HostGrants(ix, rest[u], anyHost, p) {
      assert u in bindings && HostGrants(ix, bindings[u], anyHost, p);
      assert u in more && HostGrants(ix, more[u], anyHost, p);
    }
    if u :| u in more && HostGrants(ix, more[u], anyHost, p) {
      assert u != uid ==> u in rest && HostGrants(ix, rest[u], anyHost, p);
    }
    if u :| u in bindings && HostGrants(ix, bindings[u], anyHost, p) {
      assert u != uid ==> u in rest && HostGrants(ix, rest[u], anyHost, p);
    }
  }

  // Every operation keeps the access list within the grants, and a sync makes both maps exact.
  lemma StepKeepsWithin(s: State, op: Op, s': State)
    requires Step(s, op, s')
    ensures WithinGrants(s) ==> WithinGrants(s')
    ensures op.Sync? ==> AclExact(s') && HostsExact(s')
  {
    hide AclGrants, HostGrants, InSecretACL, InVipPodHosts, Indexed;
    if Binds(op) {
      forall a ensures WithinGrants(s) && a in s'.acl ==> InSecretACL(s'.snapshot, s'.bindings, a) {
        OthersGrantAcl(s.snapshot, s.bindings, op.uid, NewBinding(s.bindings, op), a);
      }
    } else if op.Unbind? && op.uid in s.bindings {
      forall a ensures WithinGrants(s) && a in s'.acl ==> InSecretACL(s'.snapshot, s'.bindings, a) {
        OthersGrantAcl(s.snapshot, s.bindings, op.uid, NO_BINDING, a);
        if AclGrants(Indexed(s.snapshot), s.bindings[op.uid], a) {
          AclGrantsItsCgroups(Indexed(s.snapshot), s.bindings[op.uid], a);
        }
      }
    }
  }

  lemma AclGrantsItsCgroups(ix: Index, b: Binding, a: AclKey)
    requires AclGrants(ix, b, a)
    ensures a.cgroup in b.cgroups
  {
  }

  // Binding keeps an exact access list exact; so does the mode.
  lemma BindKeepsExact(s: State, op: Op, s': State)
    requires Step(s, op, s') && !op.Unbind? && AclExact(s)
    ensures AclExact(s')
  {
    hide AclGrants, HostGrants, InSecretACL, InVipPodHosts, Indexed;
    if Binds(op) {
      forall a ensures a in s'.acl <==> InSecretACL(s'.snapshot, s'.bindings, a) {
        OthersGrantAcl(s.snapshot, s.bindings, op.uid, NewBinding(s.bindings, op), a);
      }
    }
  }

  // Unbinding keeps it exact if and only if no other pod is granted anything in the pod's cgroups.
  lemma UnbindKeepsExact(s: State, uid: Uid, s': State)
    requires Step(s, Unbind(uid), s') && AclExact(s) && uid in s.bindings
    ensures AclExact(s') <==> forall a :: InSecretACL(s.snapshot, s.bindings - {uid}, a) ==> a.cgroup !in s.bindings[uid].cgroups
  {
    hide AclGrants, InSecretACL, InVipPodHosts, HostGrants, Indexed;
    var rest := s.bindings - {uid};
    assert s'.bindings == rest;
    forall a ensures a in s'.acl <==> InSecretACL(s.snapshot, rest, a) && a.cgroup !in s.bindings[uid].cgroups {
      OthersGrantAcl(s.snapshot, s.bindings, uid, NO_BINDING, a);
      if AclGrants(Indexed(s.snapshot), s.bindings[uid], a) {
        AclGrantsItsCgroups(Indexed(s.snapshot), s.bindings[uid], a);
      }
    }
  }

  lemma OwnCgroupsAreApart(s: State, uid: Uid, a: AclKey)
    requires OwnCgroups(s.bindings, uid) && uid in s.bindings && InSecretACL(s.snapshot, s.bindings - {uid}, a)
    ensures a.cgroup !in s.bindings[uid].cgroups
  {
    var rest := s.bindings - {uid};
    var u :| u in rest && AclGrants(Indexed(s.snapshot), rest[u], a);
  }

  // The hosts stay exact under every operation that leaves the mode alone.
  lemma StepKeepsHosts(s: State, op: Op, s': State)
    requires Step(s, op, s') && HostsExact(s) && s'.anyHost == s.anyHost
    ensures HostsExact(s')
  {
    hide AclGrants, HostGrants, InSecretACL, InVipPodHosts, Indexed;
    if s.vips && (Binds(op) || (op.Unbind? && op.uid in s.bindings && |s.bindings[op.uid].podIPs| == 0)) {
      forall p ensures p in s'.podHost <==> InVipPodHosts(s'.snapshot, s'.bindings, s'.anyHost, p) {
        OthersGrantHost(s.snapshot, s.bindings, s.anyHost, op.uid, if Binds(op) then NewBinding(s.bindings, op) else NO_BINDING, p);
        if op.Unbind? {
          NoAddressNoHost(Indexed(s.snapshot), s.bindings[op.uid], s.anyHost, p);
        }
      }
    }
  }

  // Some bound pod has an address.
  predicate SomeAddress(bindings: map<Uid, Binding>) {
    exists uid :: uid in bindings && |bindings[uid].podIPs| > 0
  }

  // Setting the mode does not touch the map: the hosts stay exact if and only if the mode is the one before or no
  // bound pod has an address.
  lemma SetModeKeepsHosts(s: State, audit: bool, s': State)
    requires Step(s, SetMode(audit), s') && HostsExact(s)
    ensures HostsExact(s') <==> !s.vips || audit == s.anyHost || !SomeAddress(s.bindings)
  {
    hide HostGrants, Indexed;
    if s.vips && audit != s.anyHost {
      if SomeAddress(s.bindings) {
        var uid :| uid in s.bindings && |s.bindings[uid].podIPs| > 0;
        var all := PodHost(s.bindings[uid].podIPs[0], "");
        AuditGrants(Indexed(s.snapshot), s.bindings[uid], all);
        assert InVipPodHosts(s.snapshot, s.bindings, true, all);
        forall u | u in s.bindings ensures !HostGrants(Indexed(s.snapshot), s.bindings[u], false, all) {
          AuditGrants(Indexed(s.snapshot), s.bindings[u], all);
        }
      } else {
        forall p, any: bool ensures !InVipPodHosts(s.snapshot, s.bindings, any, p) {
          forall u | u in s.bindings ensures !HostGrants(Indexed(s.snapshot), s.bindings[u], any, p) {
            NoAddressNoHost(Indexed(s.snapshot), s.bindings[u], any, p);
          }
        }
      }
    }
  }

  // Only audit mode grants every host.
  lemma AuditGrants(ix: Index, b: Binding, p: PodHost)
    requires p.host == ""
    ensures HostGrants(ix, b, true, p) <==> p.podIP in b.podIPs
    ensures !HostGrants(ix, b, false, p)
  {
  }

  lemma NoAddressNoHost(ix: Index, b: Binding, anyHost: bool, p: PodHost)
    requires |b.podIPs| == 0
    ensures !HostGrants(ix, b, anyHost, p)
  {
  }

  // ---- Runs ----

  ghost predicate IsRun(states: seq<State>, ops: seq<Op>) {
    && |states| == |ops| + 1 && states[0].bindings == map[] && states[0].acl == {} && states[0].podHost == {}
    && (forall i :: 0 <= i < |ops| ==> Step(states[i], ops[i], states[i + 1]))
  }

  // Whatever is bound, rebound, unbound and synced, the access list never allows more than the bindings grant.
  lemma {:induction false} RunStaysWithin(states: seq<State>, ops: seq<Op>)
    requires IsRun(states, ops)
    ensures WithinGrants(states[|ops|])
  {
    hide Step, InSecretACL;
    if |ops| > 0 {
      var n := |ops| - 1;
      RunStaysWithin(states[..n + 1], ops[..n]);
      StepKeepsWithin(states[n], ops[n], states[n + 1]);
    }
  }

  // While pods' cgroups are their own, it is exactly what the bindings grant.
  lemma {:induction false} RunIsExact(states: seq<State>, ops: seq<Op>)
    requires IsRun(states, ops)
    requires forall i :: 0 <= i < |ops| && ops[i].Unbind? ==> OwnCgroups(states[i].bindings, ops[i].uid)
    ensures AclExact(states[|ops|])
  {
    hide InSecretACL, OwnCgroups, Bound, SyncedTo, InVipPodHosts;
    if |ops| == 0 {
      forall a ensures !InSecretACL(states[0].snapshot, states[0].bindings, a) {
        NothingBoundNothingGranted(states[0].snapshot, a, PodHost(V4(0), ""));
      }
    } else {
      var n := |ops| - 1;
      RunIsExact(states[..n + 1], ops[..n]);
      var s, op, s' := states[n], ops[n], states[n + 1];
      if op.Unbind? {
        if op.uid in s.bindings {
          forall a | InSecretACL(s.snapshot, s.bindings - {op.uid}, a) ensures a.cgroup !in s.bindings[op.uid].cgroups {
            OwnCgroupsAreApart(s, op.uid, a);
          }
          UnbindKeepsExact(s, op.uid, s');
        }
      } else {
        BindKeepsExact(s, op, s');
      }
    }
  }

  lemma NothingBoundNothingGranted(snapshot: seq<Secret>, a: AclKey, p: PodHost)
    ensures !InSecretACL(snapshot, map[], a) && forall any :: !InVipPodHosts(snapshot, map[], any, p)
  {
  }

  // A run from start-up that leaves the access list short: two pods with one cgroup, one of them unbound.
  lemma UnbindCanFallShort() returns (states: seq<State>, ops: seq<Op>, a: AclKey)
    ensures IsRun(states, ops) && states[0].snapshot == []
    ensures var s := states[|ops|]; InSecretACL(s.snapshot, s.bindings, a) && a !in s.acl
  {
    hide IsRun, AclGrants, InSecretACL, Indexed;
    var keys: set<AclKey>;
    var secret := Secret("team", "token", "value", "kl::AAAA", "", None, 0, 0);
    var refs := [Ref("team", None)];
    keys, a := GrantsOfOne(secret, refs);
    states, ops := SharedCgroup("a", "b", [secret], refs, keys);
  }

  // Two pods u and v with one cgroup and one set of references, u unbound at last.
  lemma SharedCgroup(u: Uid, v: Uid, snapshot: seq<Secret>, refs: seq<Ref>, keys: set<AclKey>)
    returns (states: seq<State>, ops: seq<Op>)
    requires u != v && forall a :: a in keys <==> AclGrants(Indexed(snapshot), Binding([], [7], refs), a)
    ensures IsRun(states, ops) && states[0].snapshot == []
    ensures var s := states[|ops|]; s.acl == {} && forall a :: a in keys ==> InSecretACL(s.snapshot, s.bindings, a)
  {
    var b := Binding([], [7], refs);
    assert forall a :: a in keys ==> a.cgroup == 7;
    var s0 := State(map[], [], {}, {}, false, false);
    var s1 := s0.(snapshot := snapshot);
    var s2 := s1.(bindings := s1.bindings[u := b], acl := s1.acl + keys);
    var s3 := s2.(bindings := s2.bindings[v := b], acl := s2.acl + keys);
    var s4 := s3.(bindings := s3.bindings - {u}, acl := {});
    hide AclGrants, Indexed;
    assert v in s4.bindings && forall a :: a in keys ==> AclGrants(Indexed(snapshot), s4.bindings[v], a);
    hide Step, IsRun, InSecretACL;
    SyncOfNone(s0, snapshot);
    FirstOfPod(s1, u, refs, b, keys);
    FirstOfPod(s2, v, refs, b, keys);
    UnbindEmpties(s3, u);
    states, ops := [s0], [];
    StartsRun(s0);
    states, ops := Extended(states, ops, Sync(snapshot), s1);
    states, ops := Extended(states, ops, BindContainer(u, [], 7, refs), s2);
    states, ops := Extended(states, ops, BindContainer(v, [], 7, refs), s3);
    states, ops := Extended(states, ops, Unbind(u), s4);
    forall a | a in keys ensures InSecretACL(s4.snapshot, s4.bindings, a) {
      GrantsIn(s4, v, a);
    }
  }

  lemma GrantsIn(s: State, uid: Uid, a: AclKey)
    requires uid in s.bindings && AclGrants(Indexed(s.snapshot), s.bindings[uid], a)
    ensures InSecretACL(s.snapshot, s.bindings, a)
  {
  }

  lemma StartsRun(s: State)
    requires s.bindings == map[] && s.acl == {} && s.podHost == {}
    ensures IsRun([s], [])
  {
  }

  // A run and one more step.
  lemma Extended(states: seq<State>, ops: seq<Op>, op: Op, s': State) returns (states': seq<State>, ops': seq<Op>)
    requires IsRun(states, ops) && Step(states[|ops|], op, s')
    ensures IsRun(states', ops') && |ops'| == |ops| + 1
    ensures states'[|ops'|] == s' && states'[0] == states[0]
  {
    hide Step;
    states', ops' := states + [s'], ops + [op];
    forall i | 0 <= i < |ops'| ensures Step(states'[i], ops'[i], states'[i + 1]) {
      if i < |ops| {
        assert Step(states[i], ops[i], states[i + 1]);
      }
    }
  }

  lemma GrantsOfOne(secret: Secret, refs: seq<Ref>) returns (keys: set<AclKey>, a: AclKey)
    requires refs == [Ref(secret.owner, None)] && |secret.shadow| >= SHADOW_PREFIX_LEN
    ensures forall x :: x in keys <==> AclGrants(Indexed([secret]), Binding([], [7], refs), x)
    ensures a in keys
  {
    hide PlaceholderKeys, Indexed;
    var ix := Indexed([secret]);
    IndexOfOne(secret);
    assert Names(refs[0], secret.key) && ix[secret.owner][secret.key] == secret;
    assert Gives(ix, refs[0], secret);
    assert GivesAny(ix, refs, secret);
    RawKeyFirst(secret.shadow);
    keys := set k | k in PlaceholderKeys(secret.shadow) :: AclKey(7, k);
    a := AclKey(7, RawKey(secret.shadow));
  }

  lemma RawKeyFirst(shadow: string)
    requires |shadow| >= SHADOW_PREFIX_LEN
    ensures RawKey(shadow) in PlaceholderKeys(shadow)
  {
    hide HuffmanPlaceholderKey;
    assert PlaceholderKeys(shadow)[0] == RawKey(shadow);
  }

  lemma SyncOfNone(s: State, snapshot: seq<Secret>)
    requires s.bindings == map[] && s.acl == {} && !s.vips
    ensures Step(s, Sync(snapshot), s.(snapshot := snapshot))
  {
    forall a ensures !InSecretACL(snapshot, s.bindings, a) {
      NothingBoundNothingGranted(snapshot, a, PodHost(V4(0), ""));
    }
  }

  // Unbinding a pod whose cgroup is all the access list has empties the list.
  lemma UnbindEmpties(s: State, uid: Uid)
    requires uid in s.bindings && !s.vips && s.bindings[uid].cgroups == [7] && forall a :: a in s.acl ==> a.cgroup == 7
    ensures Step(s, Unbind(uid), s.(bindings := s.bindings - {uid}, acl := {}))
  {
  }

  // Binding a new pod's first container adds what its binding grants.
  lemma FirstOfPod(s: State, uid: Uid, refs: seq<Ref>, b: Binding, keys: set<AclKey>)
    requires uid !in s.bindings && !s.vips && b == Binding([], [7], refs)
    requires forall a :: a in keys <==> AclGrants(Indexed(s.snapshot), b, a)
    ensures Step(s, BindContainer(uid, [], 7, refs), s.(bindings := s.bindings[uid := b], acl := s.acl + keys))
  {
    assert NewBinding(s.bindings, BindContainer(uid, [], 7, refs)) == b;
    hide AclGrants, Indexed;
  }

  lemma IndexOfOne(secret: Secret)
    ensures Indexed([secret]) == map[secret.owner := map[secret.key := secret]]
  {
    var one := [secret];
    assert one[..0] == [];
  }

  // A run from start-up after which the pods' hosts differ from what is granted: leaving audit mode keeps a pod's
  // leave to reach every host.
  lemma ModeChangeCanDiffer() returns (states: seq<State>, ops: seq<Op>, p: PodHost)
    ensures IsRun(states, ops) && states[0].snapshot == [] && states[0].vips && !states[0].anyHost
    ensures var s := states[|ops|]; p in s.podHost && !InVipPodHosts(s.snapshot, s.bindings, s.anyHost, p)
  {
    var b := Binding([V4(1)], [], []);
    p := PodHost(V4(1), "");
    var s0 := State(map[], [], {}, {}, false, true);
    var s1 := s0.(anyHost := true);
    var s2 := s1.(bindings := map["a" := b], podHost := {p});
    var s3 := s2.(anyHost := false);
    hide AclGrants, Indexed;
    forall a ensures !AclGrants(Indexed([]), b, a) {
      NoCgroupNoGrant(Indexed([]), b, a);
    }
    assert Step(s1, BindNetwork("a", [V4(1)], []), s2);
    hide IsRun;
    StartsRun(s0);
    states, ops := [s0], [];
    states, ops := Extended(states, ops, SetMode(true), s1);
    states, ops := Extended(states, ops, BindNetwork("a", [V4(1)], []), s2);
    states, ops := Extended(states, ops, SetMode(false), s3);
  }

  lemma NoCgroupNoGrant(ix: Index, b: Binding, a: AclKey)
    requires b.cgroups == []
    ensures !AclGrants(ix, b, a)
  {
  }

  // The operations that compute the pods' hosts anew.
  predicate Recomputes(s: State, op: Op) {
    op.Sync? || (op.Unbind? && op.uid in s.bindings && |s.bindings[op.uid].podIPs| > 0)
  }

  // The mode changes while some bound pod has an address.
  predicate Disturbs(s: State, op: Op) {
    op.SetMode? && op.audit != s.anyHost && SomeAddress(s.bindings)
  }

  // The pods' hosts are exactly what the bindings grant, unless since they were last computed anew the mode changed
  // while a bound pod had an address.
  lemma {:induction false} RunHostsExact(states: seq<State>, ops: seq<Op>)
    requires IsRun(states, ops)
    requires forall i :: 0 <= i < |ops| && Disturbs(states[i], ops[i]) ==> exists j :: i < j < |ops| && Recomputes(states[j], ops[j])
    ensures HostsExact(states[|ops|])
  {
    hide InSecretACL, InVipPodHosts, Bound, Unbound, Recomputes, Disturbs;
    if |ops| == 0 {
      forall p ensures !InVipPodHosts(states[0].snapshot, states[0].bindings, states[0].anyHost, p) {
        NothingBoundNothingGranted(states[0].snapshot, AclKey(0, ""), p);
      }
    } else {
      var n := |ops| - 1;
      assert Step(states[n], ops[n], states[n + 1]);
      if Recomputes(states[n], ops[n]) {
        RecomputedIsExact(states[n], ops[n], states[n + 1]);
      } else {
        forall i | 0 <= i < n && Disturbs(states[..n + 1][i], ops[..n][i])
          ensures exists j :: i < j < n && Recomputes(states[..n + 1][j], ops[..n][j])
        {
          assert Disturbs(states[i], ops[i]);
          var j :| i < j < |ops| && Recomputes(states[j], ops[j]);
          assert Recomputes(states[..n + 1][j], ops[..n][j]);
        }
        RunHostsExact(states[..n + 1], ops[..n]);
        assert !Disturbs(states[n], ops[n]);
        UndisturbedStaysExact(states[n], ops[n], states[n + 1]);
      }
    }
  }

  lemma RecomputedIsExact(s: State, op: Op, s': State)
    requires Step(s, op, s') && Recomputes(s, op)
    ensures HostsExact(s')
  {
  }

  lemma UndisturbedStaysExact(s: State, op: Op, s': State)
    requires Step(s, op, s') && HostsExact(s) && !Disturbs(s, op)
    ensures HostsExact(s')
  {
    if op.SetMode? {
      SetModeKeepsHosts(s, op.audit, s');
    } else {
      ModeStays(s, op, s');
      StepKeepsHosts(s, op, s');
    }
  }

  lemma ModeStays(s: State, op: Op, s': State)
    requires Step(s, op, s') && (op.SetMode? ==> op.audit == s.anyHost)
    ensures s'.anyHost == s.anyHost && s'.vips == s.vips
  {
  }

  // ---- The same of the snapshot itself ----

  // After any run: the access list holds nothing but keys of secrets that are the last of their owner and key, reached by
  // a reference of a binding with the cgroup; and all of those, while every unbound pod's cgroups were its own.
  lemma AclOfRun(states: seq<State>, ops: seq<Op>)
    requires IsRun(states, ops)
    ensures var s := states[|ops|]; forall a :: a in s.acl ==> GrantedInACL(s.snapshot, s.bindings, a)
    ensures (forall i :: 0 <= i < |ops| && ops[i].Unbind? ==> OwnCgroups(states[i].bindings, ops[i].uid)) ==>
              var s := states[|ops|]; forall a :: a in s.acl <==> GrantedInACL(s.snapshot, s.bindings, a)
  {
    RunStaysWithin(states, ops);
    var s := states[|ops|];
    if forall i :: 0 <= i < |ops| && ops[i].Unbind? ==> OwnCgroups(states[i].bindings, ops[i].uid) {
      RunIsExact(states, ops);
    }
    hide IsRun, OwnCgroups, InSecretACL, GrantedInACL;
    forall a ensures InSecretACL(s.snapshot, s.bindings, a) <==> GrantedInACL(s.snapshot, s.bindings, a) {
      ACLMeans(s.snapshot, s.bindings, a);
    }
  }

  // And the pods' hosts are exactly those of such secrets, or in audit mode every host, unless the mode changed while a
  // bound pod had an address and they were not computed anew since.
  lemma HostsOfRun(states: seq<State>, ops: seq<Op>)
    requires IsRun(states, ops) && states[|ops|].vips
    requires forall i :: 0 <= i < |ops| && Disturbs(states[i], ops[i]) ==> exists j :: i < j < |ops| && Recomputes(states[j], ops[j])
    ensures var s := states[|ops|]; forall p :: p in s.podHost <==> GrantedHost(s.snapshot, s.bindings, s.anyHost, p)
  {
    RunHostsExact(states, ops);
    var s := states[|ops|];
    hide IsRun, InVipPodHosts, GrantedHost, Disturbs, Recomputes;
    forall p ensures InVipPodHosts(s.snapshot, s.bindings, s.anyHost, p) <==> GrantedHost(s.snapshot, s.bindings, s.anyHost, p) {
      HostsMean(s.snapshot, s.bindings, s.anyHost, p);
    }
  }
}
