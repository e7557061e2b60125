/** Which secrets may leave on a socket: what the connect, send and close hooks remember about each socket,
    the check of the patches staged for a record, and what a run of hooks makes that check mean. */
module SocketSecrets {
  import opened Options
  import opened Wire
  import opened FreeVirtualIP
  import opened VirtualIPPlan
  import opened VipUpstream
  import opened VirtualIPMaps
  import RecordPatch

  const XOR_MAX_PATCHES := RecordPatch.MAX_PATCHES

  // The result of parsing a first handshake record; Mismatch is only ever a connection's state.
  datatype Status = Seen | Absent | Ech | Truncated | Malformed | Mismatch
  datatype Parse = NotClientHello | Parsed(status: Status, host: Host)

  // sni_state's value.
  datatype Sni = Sni(status: Status, host: Host)

  // vip_sock_dst's value, or a socket's own destination.
  datatype Dst = Dst(ip: IP, port: nat)

  // vip_sock_host and vip_sock_dst, by socket cookie, and sni_state, by socket address.
  datatype Sockets = Sockets(host: map<nat, Host>, dst: map<nat, Dst>, sni: map<nat, Sni>)

  const NOTHING := Sockets(map[], map[], map[])

  // One connect: the socket, what the program asked for, and what the hook finds.
  datatype Attempt = Attempt(cookie: nat, stream: bool, dst: IP, port: nat,
                             maps: Maps, r4: Range, r6: Range, now: nat, rnd: nat)

  datatype Event =
    | Connecting(a: Attempt, went: Connect)
    | SynSent(sk: nat)
    | Closed(sk: nat, cookie: nat)
    | Wrote(sk: nat, hello: Parse)      // a tracked process writes a record that starts 0x16 0x03
    | EvictedHost(cookie: nat)
    | EvictedDst(cookie: nat)
    | EvictedSni(sk: nat)

  // A connect happens on safe maps, with a socket cookie (never 0), and goes where vip_redirect says.
  ghost predicate Possible(e: Event) {
    e.Connecting? ==> e.a.cookie != 0 && Safe(e.a.maps) && Goes(e.a.maps, e.a.r4, e.a.r6, e.a.dst, e.a.now, e.a.rnd, e.went)
  }

  ghost predicate PossibleRun(es: seq<Event>) {
    forall i :: 0 <= i < |es| ==> Possible(es[i])
  }

  // ---- One event ----

  function Step(s: Sockets, e: Event): (r: Sockets) {
    match e
    case Connecting(a, Redirected(real', h)) =>
      s.(host := s.host[a.cookie := h], dst := if a.stream then s.dst[a.cookie := Dst(real', a.port)] else s.dst)
    case Connecting(a, NotFake) =>
      s.(host := s.host - {a.cookie}, dst := if a.stream then s.dst[a.cookie := Dst(a.dst, a.port)] else s.dst)
    case Connecting(a, Refused) => s.(host := s.host - {a.cookie})
    case SynSent(sk) => s.(sni := s.sni - {sk})
    case Closed(sk, c) =>
      if c == 0 then s.(sni := s.sni - {sk}) else Sockets(s.host - {c}, s.dst - {c}, s.sni - {sk})
    case Wrote(sk, hello) => s.(sni := AfterHello(s.sni, sk, hello))
    case EvictedHost(c) => s.(host := s.host - {c})
    case EvictedDst(c) => s.(dst := s.dst - {c})
    case EvictedSni(sk) => s.(sni := s.sni - {sk})
  }

  // The first handshake record decides; afterwards only a ClientHello with another name, or with ECH,
  // counts, and only against the connection.
  function AfterHello(sni: map<nat, Sni>, sk: nat, hello: Parse): (r: map<nat, Sni>) {
    if sk !in sni then
      sni[sk := match hello case NotClientHello => Sni(Malformed, "") case Parsed(st, h) => Sni(st, h)]
    else if sni[sk].status == Seen && Against(hello, sni[sk].host) then
      sni[sk := Sni(Mismatch, sni[sk].host)]
    else sni
  }

  // A ClientHello that cannot belong to a connection to host.
  predicate Against(hello: Parse, host: Host) {
    hello.Parsed? && (hello.status == Ech || (hello.status == Seen && hello.host != host))
  }

  function Run(es: seq<Event>): (r: Sockets) {
    if es == [] then NOTHING else Step(Run(es[..|es| - 1]), es[|es| - 1])
  }

  // ---- The check ----

  // The restrictions of a secret_map entry.
  datatype Secret = Secret(hostLen: nat, allowedHost: Host, ipLen: nat, allowedIp: IP, port: nat)

  predicate HostRestricted(v: Secret) {
    0 < v.hostLen < MAX_HOST_LEN
  }

  // A staged patch: the key of its secret, and what it patches.
  datatype Staged = Staged(key: seq<bv8>, patch: RecordPatch.Patch)

  datatype Verdict = SockOk | DenyHost | DenyAddr

  function VipSocketCheck(sockHost: Option<Host>, v: Secret, ip: IP, port: nat): (r: Verdict)
    ensures r == SockOk <==>
      && (0 < v.hostLen < 64 ==> sockHost == Some(v.allowedHost))
      && (v.ipLen == 16 ==> ip == v.allowedIp)
      && (v.port != 0 ==> port == v.port)
  {
    if HostRestricted(v) && (sockHost.None? || sockHost.value != v.allowedHost) then DenyHost
    else if v.ipLen == 16 && ip != v.allowedIp then DenyAddr
    else if v.port != 0 && port != v.port then DenyAddr
    else SockOk
  }

  function Get<V>(m: map<nat, V>, k: nat): (r: Option<V>) {
    if k in m then Some(m[k]) else None
  }

  // A socket: its address, its cookie (0 for none) and its own destination.
  datatype Socket = Socket(sk: nat, cookie: nat, own: Dst)

  // Where the socket connected to, as far as the hooks know.
  function DstOf(s: Sockets, k: Socket): (r: Dst) {
    if k.cookie != 0 && k.cookie in s.dst then s.dst[k.cookie] else k.own
  }

  function HostOf(s: Sockets, k: Socket): (r: Option<Host>) {
    if k.cookie != 0 then Get(s.host, k.cookie) else None
  }

  // May the secret leave on the socket?
  predicate Allowed(s: Sockets, secrets: map<seq<bv8>, Secret>, audit: bool, k: Socket, key: seq<bv8>) {
    && key in secrets
    && var v := secrets[key];
       && VipSocketCheck(HostOf(s, k), v, DstOf(s, k).ip, DstOf(s, k).port) == SockOk
       && (HostRestricted(v) ==> audit || Get(s.sni, k.sk) == Some(Sni(Seen, v.allowedHost)))
  }

  // In the maps' own terms: the secret exists; if it has a host of 1 to 63 bytes, the socket's recorded host is that host
  // and, unless in audit mode, so is the name its ClientHello gave; and the address and port it has, if any, are those
  // recorded for the socket or, with none recorded, the socket's own.
  predicate MayPass(s: Sockets, secrets: map<seq<bv8>, Secret>, audit: bool, k: Socket, key: seq<bv8>) {
    && key in secrets
    && (0 < secrets[key].hostLen < 64 ==>
          && k.cookie != 0 && k.cookie in s.host && s.host[k.cookie] == secrets[key].allowedHost
          && (audit || (k.sk in s.sni && s.sni[k.sk] == Sni(Seen, secrets[key].allowedHost))))
    && (var to := if k.cookie != 0 && k.cookie in s.dst then s.dst[k.cookie] else k.own;
        && (secrets[key].ipLen == 16 ==> to.ip == secrets[key].allowedIp)
        && (secrets[key].port != 0 ==> to.port == secrets[key].port))
  }

  lemma AllowedExactly(s: Sockets, secrets: map<seq<bv8>, Secret>, audit: bool, k: Socket, key: seq<bv8>)
    ensures Allowed(s, secrets, audit, k, key) <==> MayPass(s, secrets, audit, k, key)
  {
  }

  function Survivors(s: Sockets, secrets: map<seq<bv8>, Secret>, audit: bool, k: Socket, staged: seq<Staged>): (kept: seq<Staged>)
    ensures |kept| <= |staged|
  {
    if staged == [] then [] else
    var p := staged[|staged| - 1];
    Survivors(s, secrets, audit, k, staged[..|staged| - 1]) + if Allowed(s, secrets, audit, k, p.key) then [p] else []
  }

  lemma SurvivorsNext(s: Sockets, secrets: map<seq<bv8>, Secret>, audit: bool, k: Socket, staged: seq<Staged>, p: nat)
    requires p < |staged|
    ensures Survivors(s, secrets, audit, k, staged[..p + 1]) ==
            Survivors(s, secrets, audit, k, staged[..p]) + if Allowed(s, secrets, audit, k, staged[p].key) then [staged[p]] else []
  {
    hide Allowed;
    assert staged[..p + 1][..p] == staged[..p];
  }

  // Exactly the allowed patches, each as often as it was staged ...
  lemma {:induction false} SurvivorsExactly(s: Sockets, secrets: map<seq<bv8>, Secret>, audit: bool, k: Socket, staged: seq<Staged>, p: Staged)
    ensures multiset(Survivors(s, secrets, audit, k, staged))[p] ==
            if Allowed(s, secrets, audit, k, p.key) then multiset(staged)[p] else 0
  {
    hide Allowed;
    if staged != [] {
      var n := |staged| - 1;
      SurvivorsExactly(s, secrets, audit, k, staged[..n], p);
      var q := staged[n];
      assert multiset(staged) == multiset(staged[..n]) + multiset{q} by {
        assert staged == staged[..n] + [q];
      }
      SurvivorsNext(s, secrets, audit, k, staged, n);
      assert staged[..n + 1] == staged;
    }
  }

  lemma SurvivorsPass(s: Sockets, secrets: map<seq<bv8>, Secret>, audit: bool, k: Socket, staged: seq<Staged>)
    ensures forall p :: p in Survivors(s, secrets, audit, k, staged) <==> p in staged && MayPass(s, secrets, audit, k, p.key)
  {
    hide Allowed, Survivors, MayPass;
    forall p ensures p in Survivors(s, secrets, audit, k, staged) <==> p in staged && MayPass(s, secrets, audit, k, p.key) {
      SurvivorsExactly(s, secrets, audit, k, staged, p);
      AllowedExactly(s, secrets, audit, k, p.key);
    }
  }

  // ... and in the order they were staged.
  lemma {:induction false} SurvivorsInOrder(s: Sockets, secrets: map<seq<bv8>, Secret>, audit: bool, k: Socket,
                                            front: seq<Staged>, back: seq<Staged>)
    ensures Survivors(s, secrets, audit, k, front + back) ==
            Survivors(s, secrets, audit, k, front) + Survivors(s, secrets, audit, k, back)
  {
    hide Allowed;
    if back == [] {
      assert front + back == front;
    } else {
      var n := |back| - 1;
      SurvivorsInOrder(s, secrets, audit, k, front, back[..n]);
      assert (front + back)[..|front + back| - 1] == front + back[..n];
    }
  }

  // ---- The hooks ----

  // The three maps, as the hooks update them.
  class SocketTable {
    var host: map<nat, Host>
    var dst: map<nat, Dst>
    var sni: map<nat, Sni>

    function State(): (r: Sockets)
      reads this
    {
      Sockets(host, dst, sni)
    }

    constructor ()
      ensures State() == Run([])
    {
      host, dst, sni := map[], map[], map[];
    }

    method VipRecordDst(a: Attempt, ip: IP)
      modifies this`dst
      ensures dst == if a.stream then old(dst)[a.cookie := Dst(ip, a.port)] else old(dst)
    {
      if !a.stream {
        return;
      }
      dst := dst[a.cookie := Dst(ip, a.port)];
    }

    // vip_connect4 and vip_connect6
    method VipConnect(a: Attempt) returns (allowed: bool, went: Connect)
      requires Safe(a.maps)
      modifies this
      ensures Goes(a.maps, a.r4, a.r6, a.dst, a.now, a.rnd, went) && allowed == !went.Refused?
      ensures State() == Step(old(State()), Connecting(a, went))
    {
      went := VipRedirect(a.maps, a.r4, a.r6, a.dst, a.now, a.rnd);
      if went.Redirected? {
        host := host[a.cookie := went.host];
        VipRecordDst(a, went.dst);
      } else {
        host := host - {a.cookie};
        if went.NotFake? {
          VipRecordDst(a, a.dst);
        }
      }
      allowed := !went.Refused?;
    }

    // tp_inet_sock_set_state, for the two TCP states it acts on.
    method InetSockSetState(sk: nat, cookie: nat, closed: bool)
      modifies this
      ensures State() == Step(old(State()), if closed then Closed(sk, cookie) else SynSent(sk))
    {
      sni := sni - {sk};
      if closed && cookie != 0 {
        host := host - {cookie};
        dst := dst - {cookie};
      }
    }

    // bpf_kprobe_tcp_sendmsg_sni, for a write of a tracked process that starts like a handshake record.
    method SendmsgSni(sk: nat, hello: Parse)
      modifies this`sni
      ensures State() == Step(old(State()), Wrote(sk, hello))
    {
      if sk in sni {
        if sni[sk].status != Seen {
          return;
        }
        var other := hello.Parsed? && (hello.status == Ech || (hello.status == Seen && sni[sk].host != hello.host));
        if other {
          sni := sni[sk := Sni(Mismatch, sni[sk].host)];
        }
        return;
      }
      var status, name := Malformed, "";
      if hello.Parsed? {
        status, name := hello.status, hello.host;
      }
      sni := sni[sk := Sni(status, name)];
    }

    // The least recently used maps may drop any entry.
    method Evict(e: Event)
      requires e.EvictedHost? || e.EvictedDst? || e.EvictedSni?
      modifies this
      ensures State() == Step(old(State()), e)
    {
      match e
      case EvictedHost(c) => host := host - {c};
      case EvictedDst(c) => dst := dst - {c};
      case EvictedSni(sk) => sni := sni - {sk};
    }

    // The decision on one patch in socket_filter_patches.
    method MayKeep(key: seq<bv8>, secrets: map<seq<bv8>, Secret>, audit: bool, k: Socket, dstIp: IP, dport: nat) returns (keep: bool)
      requires Dst(dstIp, dport) == DstOf(State(), k)
      ensures keep == Allowed(State(), secrets, audit, k, key)
    {
      if key !in secrets {
        return false;
      }
      var v := secrets[key];
      var sh: Option<Host> := None;
      if k.cookie != 0 && k.cookie in host {
        sh := Some(host[k.cookie]);
      }
      keep := VipSocketCheck(sh, v, dstIp, dport) == SockOk;
      if keep && v.hostLen > 0 && v.hostLen < MAX_HOST_LEN {
        var seen := k.sk in sni && sni[k.sk].status == Seen;
        if seen && sni[k.sk].host != v.allowedHost {
          seen := false;
        }
        if !seen {
          keep := audit;
        }
      }
    }

    // socket_filter_patches: compacts the staged patches in place; `count` is their patch_count.
    method SocketFilterPatches(patches: array<Staged>, count: nat, secrets: map<seq<bv8>, Secret>, audit: bool, k: Socket)
      returns (kept: nat)
      requires patches.Length == XOR_MAX_PATCHES
      modifies patches
      ensures kept <= XOR_MAX_PATCHES
      ensures patches[..kept] == Survivors(State(), secrets, audit, k, old(patches[..if count > XOR_MAX_PATCHES then XOR_MAX_PATCHES else count]))
      ensures forall i :: kept <= i < XOR_MAX_PATCHES ==> patches[i] == old(patches[i])
      ensures forall p :: p in patches[..kept] <==>
                p in old(patches[..if count > XOR_MAX_PATCHES then XOR_MAX_PATCHES else count]) && MayPass(State(), secrets, audit, k, p.key)
    {
      var dstIp, dport := k.own.ip, k.own.port;
      if k.cookie != 0 && k.cookie in dst {
        dstIp, dport := dst[k.cookie].ip, dst[k.cookie].port;
      }
      var pc := if count > XOR_MAX_PATCHES then XOR_MAX_PATCHES else count;
      ghost var staged := patches[..];
      kept := 0;
      assert Survivors(State(), secrets, audit, k, staged[..0]) == [];
      hide Allowed, Survivors, MayPass;
      var p := 0;
      while p < pc
        invariant 0 <= kept <= p <= pc
        invariant patches[..kept] == Survivors(State(), secrets, audit, k, staged[..p])
        invariant forall i :: kept <= i < XOR_MAX_PATCHES ==> patches[i] == staged[i]
      {
        SurvivorsNext(State(), secrets, audit, k, staged, p);
        var keep := MayKeep(patches[p].key, secrets, audit, k, dstIp, dport);
        if keep {
          ghost var front := patches[..kept];
          patches[kept] := patches[p];
          kept := kept + 1;
          assert patches[..kept] == front + [staged[p]];
        }
        p := p + 1;
      }
      assert staged[..pc] == old(patches[..pc]);
      SurvivorsPass(State(), secrets, audit, k, staged[..pc]);
    }
  }

  // ---- What a run makes of it: the host ----

  predicate ConnectOf(e: Event, cookie: nat) {
    e.Connecting? && e.a.cookie == cookie
  }

  // The socket's latest connect.
  function LatestConnect(es: seq<Event>, cookie: nat): (i: Option<nat>)
    ensures i.Some? ==> i.value < |es| && ConnectOf(es[i.value], cookie)
    ensures forall j :: (if i.Some? then i.value < j else 0 <= j) && j < |es| ==> !ConnectOf(es[j], cookie)
  {
    if es == [] then None
    else if ConnectOf(es[|es| - 1], cookie) then Some(|es| - 1)
    else LatestConnect(es[..|es| - 1], cookie)
  }

  predicate DropsHost(e: Event, cookie: nat) {
    (e.Closed? || e.EvictedHost?) && e.cookie == cookie
  }

  // The latest connect went to a fake IP of h, and the socket was not closed or forgotten since.
  predicate ConnectedTo(es: seq<Event>, cookie: nat, h: Host) {
    var i := LatestConnect(es, cookie);
    && i.Some? && es[i.value].went.Redirected? && es[i.value].went.host == h
    && (forall j :: i.value < j < |es| ==> !DropsHost(es[j], cookie))
  }

  lemma {:induction false} HostIsOfLatestConnect(es: seq<Event>, cookie: nat, h: Host)
    requires cookie != 0
    ensures Get(Run(es).host, cookie) == Some(h) <==> ConnectedTo(es, cookie, h)
  {
    if es != [] {
      var n := |es| - 1;
      var before, e := es[..n], es[n];
      HostIsOfLatestConnect(before, cookie, h);
      if !ConnectOf(e, cookie) {
        assert LatestConnect(es, cookie) == LatestConnect(before, cookie);
        var i := LatestConnect(before, cookie);
        if DropsHost(e, cookie) {
          assert i.Some? ==> i.value < n;
        } else {
          assert forall j :: 0 <= j < n ==> es[j] == before[j];
        }
      }
    }
  }

  // ---- The destination ----

  // The socket's latest TCP connect that was not refused.
  predicate DstOfConnect(e: Event, cookie: nat) {
    ConnectOf(e, cookie) && e.a.stream && !e.went.Refused?
  }

  function LatestDst(es: seq<Event>, cookie: nat): (i: Option<nat>)
    ensures i.Some? ==> i.value < |es| && DstOfConnect(es[i.value], cookie)
    ensures forall j :: (if i.Some? then i.value < j else 0 <= j) && j < |es| ==> !DstOfConnect(es[j], cookie)
  {
    if es == [] then None
    else if DstOfConnect(es[|es| - 1], cookie) then Some(|es| - 1)
    else LatestDst(es[..|es| - 1], cookie)
  }

  predicate DropsDst(e: Event, cookie: nat) {
    (e.Closed? || e.EvictedDst?) && e.cookie == cookie
  }

  // Where that connect went: the real address of a fake IP, or the address asked for.
  function WentTo(e: Event): (r: Dst)
    requires e.Connecting? && !e.went.Refused?
  {
    Dst(if e.went.Redirected? then e.went.dst else e.a.dst, e.a.port)
  }

  predicate ConnectedAt(es: seq<Event>, cookie: nat, d: Dst) {
    var i := LatestDst(es, cookie);
    && i.Some? && WentTo(es[i.value]) == d
    && (forall j :: i.value < j < |es| ==> !DropsDst(es[j], cookie))
  }

  lemma {:induction false} DstIsOfLatestConnect(es: seq<Event>, cookie: nat, d: Dst)
    requires cookie != 0
    ensures Get(Run(es).dst, cookie) == Some(d) <==> ConnectedAt(es, cookie, d)
  {
    if es != [] {
      var n := |es| - 1;
      var before, e := es[..n], es[n];
      DstIsOfLatestConnect(before, cookie, d);
      if !DstOfConnect(e, cookie) {
        assert LatestDst(es, cookie) == LatestDst(before, cookie);
        var i := LatestDst(before, cookie);
        if DropsDst(e, cookie) {
          assert i.Some? ==> i.value < n;
        } else {
          assert forall j :: 0 <= j < n ==> es[j] == before[j];
        }
      }
    }
  }

  // ---- The name ----

  predicate WriteOf(e: Event, sk: nat) {
    e.Wrote? && e.sk == sk
  }

  // A new connection, a close or an eviction: the socket's name is forgotten.
  predicate DropsSni(e: Event, sk: nat) {
    (e.SynSent? || e.Closed? || e.EvictedSni?) && e.sk == sk
  }

  predicate DroppedBetween(es: seq<Event>, sk: nat, from: int, to: int) {
    exists d :: from < d < to && 0 <= d < |es| && DropsSni(es[d], sk)
  }

  // The first handshake record since the name was last forgotten.
  function FirstHello(es: seq<Event>, sk: nat): (i: Option<nat>)
    ensures i.Some? ==> i.value < |es| && WriteOf(es[i.value], sk) && !DroppedBetween(es, sk, i.value, |es|)
    ensures forall j :: 0 <= j < (if i.Some? then i.value else |es|) && WriteOf(es[j], sk) ==>
              DroppedBetween(es, sk, j, if i.Some? then i.value else |es|)
  {
    if es == [] then None else
    var n := |es| - 1;
    var before := FirstHello(es[..n], sk);
    FirstHelloStep(es, sk, before);
    if DropsSni(es[n], sk) then None
    else if before.None? && WriteOf(es[n], sk) then Some(n)
    else before
  }

  lemma FirstHelloStep(es: seq<Event>, sk: nat, before: Option<nat>)
    requires es != []
    ensures forall a, b {:trigger DroppedBetween(es, sk, a, b)} :: b < |es| ==> (DroppedBetween(es[..|es| - 1], sk, a, b) <==> DroppedBetween(es, sk, a, b))
    ensures forall a {:trigger DroppedBetween(es, sk, a, |es|)} :: 0 <= a < |es| - 1 ==>
              (DroppedBetween(es, sk, a, |es|) <==> DroppedBetween(es, sk, a, |es| - 1) || DropsSni(es[|es| - 1], sk))
    ensures !DroppedBetween(es, sk, |es| - 1, |es|)
  {
    forall a, b | b < |es|
      ensures DroppedBetween(es[..|es| - 1], sk, a, b) <==> DroppedBetween(es, sk, a, b)
    {
      if DroppedBetween(es, sk, a, b) {
        var d :| a < d < b && 0 <= d < |es| && DropsSni(es[d], sk);
        assert DropsSni(es[..|es| - 1][d], sk);
      }
      if DroppedBetween(es[..|es| - 1], sk, a, b) {
        var d :| a < d < b && 0 <= d < |es| - 1 && DropsSni(es[..|es| - 1][d], sk);
        assert DropsSni(es[d], sk);
      }
    }
    forall a | 0 <= a < |es| - 1
      ensures DroppedBetween(es, sk, a, |es|) <==> DroppedBetween(es, sk, a, |es| - 1) || DropsSni(es[|es| - 1], sk)
    {
    }
  }

  // The first handshake record named h, and no ClientHello since speaks against it.
  predicate Named(es: seq<Event>, sk: nat, h: Host) {
    var i := FirstHello(es, sk);
    && i.Some? && es[i.value].hello == Parsed(Seen, h)
    && (forall j :: i.value < j < |es| && WriteOf(es[j], sk) ==>
          !(es[j].hello.Parsed? && (es[j].hello.status == Ech || (es[j].hello.status == Seen && es[j].hello.host != h))))
  }

  lemma {:induction false} SniIsOfFirstHello(es: seq<Event>, sk: nat, h: Host)
    ensures sk in Run(es).sni <==> FirstHello(es, sk).Some?
    ensures Get(Run(es).sni, sk) == Some(Sni(Seen, h)) <==> Named(es, sk, h)
  {
    if es != [] {
      var n := |es| - 1;
      var before, e := es[..n], es[n];
      SniIsOfFirstHello(before, sk, h);
      assert forall j :: 0 <= j < n ==> es[j] == before[j];
      if !DropsSni(e, sk) && !WriteOf(e, sk) {
        assert Get(Run(es).sni, sk) == Get(Run(before).sni, sk);
      }
    }
  }

  // ---- Which patches leave ----

  // Where the socket connected to, from its history: its latest TCP connect, else its own destination.
  ghost predicate Reaches(es: seq<Event>, k: Socket, d: Dst) {
    if k.cookie != 0 && exists c :: ConnectedAt(es, k.cookie, c) then ConnectedAt(es, k.cookie, d) else d == k.own
  }

  // A secret may leave on a socket when the socket reaches the secret's address and port and, if the secret
  // has a host, its latest connect went to a fake IP of the host and its ClientHello named the host.
  ghost predicate MayLeave(es: seq<Event>, audit: bool, k: Socket, v: Secret) {
    && (exists d :: Reaches(es, k, d) && (v.ipLen == 16 ==> d.ip == v.allowedIp) && (v.port != 0 ==> d.port == v.port))
    && (0 < v.hostLen < 64 ==>
          && k.cookie != 0 && ConnectedTo(es, k.cookie, v.allowedHost)
          && (audit || Named(es, k.sk, v.allowedHost)))
  }

  lemma ReachesDst(es: seq<Event>, k: Socket, d: Dst)
    ensures Reaches(es, k, d) <==> d == DstOf(Run(es), k)
  {
    if k.cookie != 0 {
      hide Run, ConnectedAt;
      DstIsOfLatestConnect(es, k.cookie, d);
      if k.cookie in Run(es).dst {
        DstIsOfLatestConnect(es, k.cookie, Run(es).dst[k.cookie]);
      } else {
        forall c ensures !ConnectedAt(es, k.cookie, c) {
          DstIsOfLatestConnect(es, k.cookie, c);
        }
      }
    }
  }

  // After any run, the check lets a patch through exactly when its secret exists and may leave.
  lemma AllowedMeans(es: seq<Event>, secrets: map<seq<bv8>, Secret>, audit: bool, k: Socket, key: seq<bv8>)
    ensures Allowed(Run(es), secrets, audit, k, key) <==> key in secrets && MayLeave(es, audit, k, secrets[key])
  {
    if key in secrets {
      var v := secrets[key];
      ReachesDst(es, k, DstOf(Run(es), k));
      forall d ensures Reaches(es, k, d) <==> d == DstOf(Run(es), k) {
        ReachesDst(es, k, d);
      }
      if k.cookie != 0 {
        HostIsOfLatestConnect(es, k.cookie, v.allowedHost);
      }
      SniIsOfFirstHello(es, k.sk, v.allowedHost);
      hide Run, Reaches, ConnectedTo, Named, DstOf;
    }
  }

  // TCP: a socket that has written is closed before it connects again.
  ghost predicate ClosedBeforeReconnect(es: seq<Event>, k: Socket) {
    forall w, c :: 0 <= w < c < |es| && WriteOf(es[w], k.sk) && ConnectOf(es[c], k.cookie) ==> DroppedBetween(es, k.sk, w, c)
  }

  // The connect was to a fake IP reserved for h and was sent to an address recorded for h.
  ghost predicate FakeOfHost(e: Event, h: Host) {
    && e.Connecting? && InRange(e.a.r4, e.a.r6, e.a.dst) && e.went.Redirected?
    && e.a.dst in e.a.maps.ipHost && e.a.maps.ipHost[e.a.dst].host == h
    && e.a.dst in e.a.maps.upstream
    && exists i :: 0 <= i < SLOTS && HeldFor(e.a.maps.upstream[e.a.dst], i, e.went.dst, h)
  }

  lemma HelloFollowsConnect(es: seq<Event>, k: Socket)
    requires ClosedBeforeReconnect(es, k) && LatestConnect(es, k.cookie).Some? && FirstHello(es, k.sk).Some?
    ensures LatestConnect(es, k.cookie).value < FirstHello(es, k.sk).value
  {
    var c, w := LatestConnect(es, k.cookie).value, FirstHello(es, k.sk).value;
    assert DroppedBetween(es, k.sk, w, c) ==> DroppedBetween(es, k.sk, w, |es|);
  }

  // In enforce mode, a host-restricted secret leaves only on a socket whose latest connect
  // - was to a fake IP reserved for that host at that moment,
  // - went to an address a DNS answer for that host had returned
  // and whose first ClientHello names the host, with no later one against it; where the socket was closed before it
  // connected again, as TCP sockets are, that hello followed that connect.
  lemma HostSecretLeavesForItsHost(es: seq<Event>, secrets: map<seq<bv8>, Secret>, k: Socket, staged: seq<Staged>, p: Staged)
    requires PossibleRun(es)
    requires p in Survivors(Run(es), secrets, false, k, staged)
    ensures p in staged && p.key in secrets
    ensures 0 < secrets[p.key].hostLen < 64 ==> LeavesForHost(es, k, secrets[p.key].allowedHost)
  {
    SurvivorsExactly(Run(es), secrets, false, k, staged, p);
    AllowedMeans(es, secrets, false, k, p.key);
    hide Run, Survivors;
    if HostRestricted(secrets[p.key]) {
      var e := es[LatestConnect(es, k.cookie).value];
      assert Possible(e);
      ConnectGoesToItsHost(e.a.maps, e.a.r4, e.a.r6, e.a.dst, e.a.now, e.a.rnd, e.went);
      if ClosedBeforeReconnect(es, k) {
        HelloFollowsConnect(es, k);
      }
    }
  }

  ghost predicate LeavesForHost(es: seq<Event>, k: Socket, h: Host) {
    && LatestConnect(es, k.cookie).Some? && FakeOfHost(es[LatestConnect(es, k.cookie).value], h)
    && Named(es, k.sk, h)
    && (ClosedBeforeReconnect(es, k) ==> LatestConnect(es, k.cookie).value < FirstHello(es, k.sk).value)
  }
}
