/** What the pods may redeem: the bindings of the pods, and the two maps, secret_acl and vip_pod_host, that are
    edited with them. */
module Grants {
  import opened Options
  import opened Wire
  import opened Huffman
  import opened Shadows
  import opened ShadowReconciler
  import opened VipUpstream
  import opened SecretMap

  type Uid = string

  // A reference to an owner's secrets: some of its keys, or all of them.
  datatype Ref = Ref(owner: Owner, keys: Option<seq<Key>>)

  datatype Binding = Binding(podIPs: seq<IP>, cgroups: seq<nat>, refs: seq<Ref>)

  const NO_BINDING := Binding([], [], [])

  // Entries of secret_acl and of vip_pod_host (host "": every watched host).
  datatype AclKey = AclKey(cgroup: nat, key: string)
  datatype PodHost = PodHost(podIP: IP, host: string)

  // ---- What bindings grant ----

  // indexSecrets: of two secrets with one owner and key, the later counts.
  type Index = map<Owner, map<Key, Secret>>

  function Indexed(snapshot: seq<Secret>): (r: Index) {
    if snapshot == [] then map[] else
    var ix, s := Indexed(snapshot[..|snapshot| - 1]), snapshot[|snapshot| - 1];
    ix[s.owner := (if s.owner in ix then ix[s.owner] else map[])[s.key := s]]
  }

  predicate Names(ref: Ref, key: Key) {
    ref.keys.None? || key in ref.keys.value
  }

  // The secrets a reference grants, and those of a binding.
  predicate Gives(ix: Index, ref: Ref, s: Secret) {
    ref.owner in ix && exists k :: k in ix[ref.owner] && Names(ref, k) && ix[ref.owner][k] == s
  }

  ghost predicate GivesAny(ix: Index, refs: seq<Ref>, s: Secret) {
    exists i :: 0 <= i < |refs| && Gives(ix, refs[i], s)
  }

  ghost predicate AclGrants(ix: Index, b: Binding, a: AclKey) {
    a.cgroup in b.cgroups && exists s :: GivesAny(ix, b.refs, s) && a.key in PlaceholderKeys(s.shadow)
  }

  predicate Watchable(host: string) {
    host != "" && |host| < MAX_HOST_LEN
  }

  ghost predicate HostGrants(ix: Index, b: Binding, anyHost: bool, p: PodHost) {
    && p.podIP in b.podIPs
    && if anyHost then p.host == "" else Watchable(p.host) && exists s :: GivesAny(ix, b.refs, s) && s.host == p.host
  }

  // secretACL and vipPodHosts: what some binding grants.
  ghost predicate InSecretACL(snapshot: seq<Secret>, bindings: map<Uid, Binding>, a: AclKey) {
    exists uid :: uid in bindings && AclGrants(Indexed(snapshot), bindings[uid], a)
  }

  ghost predicate InVipPodHosts(snapshot: seq<Secret>, bindings: map<Uid, Binding>, anyHost: bool, p: PodHost) {
    exists uid :: uid in bindings && HostGrants(Indexed(snapshot), bindings[uid], anyHost, p)
  }

  ghost predicate IsSecretACL(snapshot: seq<Secret>, bindings: map<Uid, Binding>, acl: set<AclKey>) {
    forall a :: a in acl <==> InSecretACL(snapshot, bindings, a)
  }

  ghost predicate IsVipPodHosts(snapshot: seq<Secret>, bindings: map<Uid, Binding>, anyHost: bool, hosts: set<PodHost>) {
    forall p :: p in hosts <==> InVipPodHosts(snapshot, bindings, anyHost, p)
  }

  // ---- What they are, of the snapshot itself ----

  // The snapshot's i-th secret is the last of its owner and key.
  predicate LastOfKey(snapshot: seq<Secret>, i: int) {
    && 0 <= i < |snapshot|
    && forall j :: i < j < |snapshot| ==> snapshot[j].owner != snapshot[i].owner || snapshot[j].key != snapshot[i].key
  }

  // A binding's references reach that secret: one names its owner, and its key or all keys.
  ghost predicate Reaches(b: Binding, s: Secret) {
    exists r :: 0 <= r < |b.refs| && b.refs[r].owner == s.owner && (b.refs[r].keys.None? || s.key in b.refs[r].keys.value)
  }

  // A key of the secret: the first 8 bytes of its shadow, or of its shadow's HPACK encoding.
  predicate KeyOfSecret(s: Secret, key: string) {
    && |s.shadow| >= 8
    && (key == s.shadow[..8] || (|AppendHuffmanString(s.shadow)| >= 8 && key == AppendHuffmanString(s.shadow)[..8]))
  }

  ghost predicate GrantedInACL(snapshot: seq<Secret>, bindings: map<Uid, Binding>, a: AclKey) {
    exists uid, i :: && uid in bindings && a.cgroup in bindings[uid].cgroups && LastOfKey(snapshot, i)
                     && Reaches(bindings[uid], snapshot[i]) && KeyOfSecret(snapshot[i], a.key)
  }

  // In audit mode every host, as "", for every address of a bound pod; else the hosts of 1 to 63 bytes of the secrets
  // the pod's references reach.
  ghost predicate GrantedHost(snapshot: seq<Secret>, bindings: map<Uid, Binding>, anyHost: bool, p: PodHost) {
    if anyHost then p.host == "" && exists uid :: uid in bindings && p.podIP in bindings[uid].podIPs
    else && 0 < |p.host| < 64
         && exists uid, i :: && uid in bindings && p.podIP in bindings[uid].podIPs && LastOfKey(snapshot, i)
                             && Reaches(bindings[uid], snapshot[i]) && snapshot[i].host == p.host
  }

  predicate InIndex(ix: Index, s: Secret) {
    s.owner in ix && s.key in ix[s.owner] && ix[s.owner][s.key] == s
  }

  // The index holds exactly the last secret of each owner and key.
  lemma {:induction false} IndexedExactly(snapshot: seq<Secret>, s: Secret)
    ensures InIndex(Indexed(snapshot), s) <==> exists i :: LastOfKey(snapshot, i) && snapshot[i] == s
  {
    if snapshot != [] {
      var n := |snapshot| - 1;
      var last := snapshot[n];
      IndexedExactly(snapshot[..n], s);
      assert InIndex(Indexed(snapshot), s) <==> if s.owner == last.owner && s.key == last.key then s == last else InIndex(Indexed(snapshot[..n]), s);
      hide Indexed, InIndex, LastOfKey;
      LastOfMore(snapshot, s);
    }
  }

  lemma LastOfMore(snapshot: seq<Secret>, s: Secret)
    requires snapshot != []
    ensures var n := |snapshot| - 1;
            (exists i :: LastOfKey(snapshot, i) && snapshot[i] == s) <==>
              if s.owner == snapshot[n].owner && s.key == snapshot[n].key then s == snapshot[n]
              else exists i :: LastOfKey(snapshot[..n], i) && snapshot[..n][i] == s
  {
    var n := |snapshot| - 1;
    var rest := snapshot[..n];
    assert LastOfKey(snapshot, n);
    forall i | 0 <= i < n
      ensures LastOfKey(snapshot, i) <==> LastOfKey(rest, i) && (snapshot[n].owner != snapshot[i].owner || snapshot[n].key != snapshot[i].key)
    {
      LastOfBoth(snapshot, i);
    }
    var same := s.owner == snapshot[n].owner && s.key == snapshot[n].key;
    if same || s == snapshot[n] {
      assert forall i :: LastOfKey(snapshot, i) && snapshot[i] == s ==> i == n;
    } else {
      if i :| LastOfKey(snapshot, i) && snapshot[i] == s {
        assert LastOfKey(rest, i) && rest[i] == s;
      }
      if i :| LastOfKey(rest, i) && rest[i] == s {
        assert LastOfKey(snapshot, i) && snapshot[i] == s;
      }
    }
  }

  lemma LastOfBoth(snapshot: seq<Secret>, i: nat)
    requires i + 1 < |snapshot|
    ensures var n := |snapshot| - 1;
            LastOfKey(snapshot, i) <==>
              LastOfKey(snapshot[..n], i) && (snapshot[n].owner != snapshot[i].owner || snapshot[n].key != snapshot[i].key)
  {
    var rest := snapshot[..|snapshot| - 1];
    assert forall j :: 0 <= j < |rest| ==> rest[j] == snapshot[j];
  }

  lemma {:induction false} IndexNames(snapshot: seq<Secret>)
    ensures forall o, k :: o in Indexed(snapshot) && k in Indexed(snapshot)[o] ==>
              Indexed(snapshot)[o][k].owner == o && Indexed(snapshot)[o][k].key == k
  {
    if snapshot != [] {
      IndexNames(snapshot[..|snapshot| - 1]);
    }
  }

  lemma GivesAnyMeans(snapshot: seq<Secret>, b: Binding, s: Secret)
    ensures GivesAny(Indexed(snapshot), b.refs, s) <==> Reaches(b, s) && exists i :: LastOfKey(snapshot, i) && snapshot[i] == s
  {
    IndexedExactly(snapshot, s);
    IndexNames(snapshot);
    hide Indexed;
    var ix := Indexed(snapshot);
    if Reaches(b, s) && InIndex(ix, s) {
      var r :| 0 <= r < |b.refs| && b.refs[r].owner == s.owner && (b.refs[r].keys.None? || s.key in b.refs[r].keys.value);
      assert Names(b.refs[r], s.key) && ix[s.owner][s.key] == s;
      assert Gives(ix, b.refs[r], s);
    }
  }

  lemma PlaceholderKeysMean(s: Secret, key: string)
    ensures key in PlaceholderKeys(s.shadow) <==> KeyOfSecret(s, key)
  {
    hide AppendHuffmanString;
  }

  lemma ACLMeans(snapshot: seq<Secret>, bindings: map<Uid, Binding>, a: AclKey)
    ensures InSecretACL(snapshot, bindings, a) <==> GrantedInACL(snapshot, bindings, a)
  {
    hide GivesAny, Reaches, KeyOfSecret, Indexed, PlaceholderKeys;
    forall b: Binding, s ensures GivesAny(Indexed(snapshot), b.refs, s) <==> Reaches(b, s) && exists i :: LastOfKey(snapshot, i) && snapshot[i] == s {
      GivesAnyMeans(snapshot, b, s);
    }
    forall s: Secret ensures a.key in PlaceholderKeys(s.shadow) <==> KeyOfSecret(s, a.key) {
      PlaceholderKeysMean(s, a.key);
    }
    if InSecretACL(snapshot, bindings, a) {
      var uid :| uid in bindings && AclGrants(Indexed(snapshot), bindings[uid], a);
      var s :| GivesAny(Indexed(snapshot), bindings[uid].refs, s) && a.key in PlaceholderKeys(s.shadow);
      var i :| LastOfKey(snapshot, i) && snapshot[i] == s;
      assert Reaches(bindings[uid], snapshot[i]) && KeyOfSecret(snapshot[i], a.key);
    }
    if GrantedInACL(snapshot, bindings, a) {
      var uid, i :| && uid in bindings && a.cgroup in bindings[uid].cgroups && LastOfKey(snapshot, i)
                    && Reaches(bindings[uid], snapshot[i]) && KeyOfSecret(snapshot[i], a.key);
      assert GivesAny(Indexed(snapshot), bindings[uid].refs, snapshot[i]) && a.key in PlaceholderKeys(snapshot[i].shadow);
      assert AclGrants(Indexed(snapshot), bindings[uid], a);
    }
  }

  lemma HostsMean(snapshot: seq<Secret>, bindings: map<Uid, Binding>, anyHost: bool, p: PodHost)
    ensures InVipPodHosts(snapshot, bindings, anyHost, p) <==> GrantedHost(snapshot, bindings, anyHost, p)
  {
    hide GivesAny, Reaches, Indexed;
    forall b: Binding, s ensures GivesAny(Indexed(snapshot), b.refs, s) <==> Reaches(b, s) && exists i :: LastOfKey(snapshot, i) && snapshot[i] == s {
      GivesAnyMeans(snapshot, b, s);
    }
    if InVipPodHosts(snapshot, bindings, anyHost, p) && !anyHost {
      var uid :| uid in bindings && HostGrants(Indexed(snapshot), bindings[uid], anyHost, p);
      var s :| GivesAny(Indexed(snapshot), bindings[uid].refs, s) && s.host == p.host;
      var i :| LastOfKey(snapshot, i) && snapshot[i] == s;
      assert Reaches(bindings[uid], snapshot[i]) && snapshot[i].host == p.host;
    }
    if GrantedHost(snapshot, bindings, anyHost, p) {
      if anyHost {
        var uid :| uid in bindings && p.podIP in bindings[uid].podIPs;
        assert HostGrants(Indexed(snapshot), bindings[uid], anyHost, p);
      } else {
        var uid, i :| && uid in bindings && p.podIP in bindings[uid].podIPs && LastOfKey(snapshot, i)
                      && Reaches(bindings[uid], snapshot[i]) && snapshot[i].host == p.host;
        assert GivesAny(Indexed(snapshot), bindings[uid].refs, snapshot[i]);
        assert HostGrants(Indexed(snapshot), bindings[uid], anyHost, p);
      }
    }
  }

  // ---- Computing them ----

  method IndexSecrets(snapshot: seq<Secret>) returns (ix: Index)
    ensures ix == Indexed(snapshot)
    ensures forall s :: InIndex(ix, s) <==> exists i :: LastOfKey(snapshot, i) && snapshot[i] == s
  {
    ix := map[];
    for i := 0 to |snapshot|
      invariant ix == Indexed(snapshot[..i])
    {
      var s := snapshot[i];
      assert snapshot[..i + 1][..i] == snapshot[..i];
      if s.owner !in ix {
        ix := ix[s.owner := map[]];
      }
      ix := ix[s.owner := ix[s.owner][s.key := s]];
    }
    assert snapshot[..|snapshot|] == snapshot;
    forall s ensures InIndex(ix, s) <==> exists i :: LastOfKey(snapshot, i) && snapshot[i] == s {
      IndexedExactly(snapshot, s);
    }
  }

  // each: the secrets a reference grants.
  method Each(ix: Index, ref: Ref) returns (given: set<Secret>)
    ensures forall s :: s in given <==> Gives(ix, ref, s)
  {
    given := {};
    if ref.owner !in ix {
      return;
    }
    var owned := ix[ref.owner];
    if ref.keys.None? {
      given := owned.Values;
      return;
    }
    for i := 0 to |ref.keys.value|
      invariant forall s :: s in given <==> exists j :: 0 <= j < i && ref.keys.value[j] in owned && owned[ref.keys.value[j]] == s
    {
      if ref.keys.value[i] in owned {
        given := given + {owned[ref.keys.value[i]]};
      }
    }
    forall s ensures s in given <==> Gives(ix, ref, s) {
      if Gives(ix, ref, s) {
        var k :| k in owned && Names(ref, k) && owned[k] == s;
        var j :| 0 <= j < |ref.keys.value| && ref.keys.value[j] == k;
      }
    }
  }

  // Everything a binding's references grant.
  method EachOf(ix: Index, refs: seq<Ref>) returns (given: set<Secret>)
    ensures forall s :: s in given <==> GivesAny(ix, refs, s)
  {
    hide Gives;
    given := {};
    for i := 0 to |refs|
      invariant forall s :: s in given <==> exists j :: 0 <= j < i && Gives(ix, refs[j], s)
    {
      var more := Each(ix, refs[i]);
      given := given + more;
    }
  }

  method AclOf(ix: Index, b: Binding) returns (acl: set<AclKey>)
    ensures forall a :: a in acl <==> AclGrants(ix, b, a)
  {
    hide PlaceholderKeys, GivesAny;
    var given := EachOf(ix, b.refs);
    acl := set s, k, cg | s in given && k in PlaceholderKeys(s.shadow) && cg in b.cgroups :: AclKey(cg, k);
  }

  method PodHostsOf(ix: Index, b: Binding, anyHost: bool) returns (hosts: set<PodHost>)
    ensures forall p :: p in hosts <==> HostGrants(ix, b, anyHost, p)
  {
    hide GivesAny;
    if anyHost {
      hosts := set ip | ip in b.podIPs :: PodHost(ip, "");
      return;
    }
    var given := EachOf(ix, b.refs);
    hosts := set s, ip | s in given && Watchable(s.host) && ip in b.podIPs :: PodHost(ip, s.host);
  }

  method SecretACL(snapshot: seq<Secret>, bindings: map<Uid, Binding>) returns (acl: set<AclKey>)
    ensures IsSecretACL(snapshot, bindings, acl)
    ensures forall a :: a in acl <==> GrantedInACL(snapshot, bindings, a)
  {
    hide AclGrants, GrantedInACL;
    forall a ensures InSecretACL(snapshot, bindings, a) <==> GrantedInACL(snapshot, bindings, a) {
      ACLMeans(snapshot, bindings, a);
    }
    var ix := IndexSecrets(snapshot);
    acl := {};
    var uids := bindings.Keys;
    while uids != {}
      invariant uids <= bindings.Keys
      invariant forall a :: a in acl <==> exists uid :: uid in bindings && uid !in uids && AclGrants(ix, bindings[uid], a)
      decreases |uids|
    {
      var uid :| uid in uids;
      uids := uids - {uid};
      var more := AclOf(ix, bindings[uid]);
      acl := acl + more;
    }
  }

  method VipPodHosts(snapshot: seq<Secret>, bindings: map<Uid, Binding>, anyHost: bool) returns (hosts: set<PodHost>)
    ensures IsVipPodHosts(snapshot, bindings, anyHost, hosts)
    ensures forall p :: p in hosts <==> GrantedHost(snapshot, bindings, anyHost, p)
  {
    hide HostGrants, GrantedHost;
    forall p ensures InVipPodHosts(snapshot, bindings, anyHost, p) <==> GrantedHost(snapshot, bindings, anyHost, p) {
      HostsMean(snapshot, bindings, anyHost, p);
    }
    var ix := IndexSecrets(snapshot);
    hosts := {};
    var uids := bindings.Keys;
    while uids != {}
      invariant uids <= bindings.Keys
      invariant forall p :: p in hosts <==> exists uid :: uid in bindings && uid !in uids && HostGrants(ix, bindings[uid], anyHost, p)
      decreases |uids|
    {
      var uid :| uid in uids;
      uids := uids - {uid};
      var more := PodHostsOf(ix, bindings[uid], anyHost);
      hosts := hosts + more;
    }
  }
}
