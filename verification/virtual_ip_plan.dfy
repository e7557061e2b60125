/** planVirtualIPs: which fake IP of one family each watched host gets, given the reservations made
    before. Time is in whole seconds. */
module VirtualIPPlan {
  import opened Options
  import opened FreeVirtualIP

  type Host = string

  // How long a fake IP stays reserved for a host no longer watched: 24 hours.
  const RETENTION := 86400

  datatype Entry = Active(host: Host) | Retired(host: Host, at: int)

  datatype Eviction = Eviction(ip: Addr, entry: Entry)

  // The reservations, the active fake IP of each watched host, the reservations evicted to make room
  // (in order) and the hosts left without a fake IP.
  datatype Plan = Plan(entries: map<Addr, Entry>, hosts: map<Host, Addr>, evicted: seq<Eviction>, unallocated: seq<Host>)

  // ---- The order hosts are visited in ----

  predicate StrLe(a: Host, b: Host) {
    if a == [] then true
    else if b == [] then false
    else a[0] < b[0] || (a[0] == b[0] && StrLe(a[1..], b[1..]))
  }

  lemma StrLeRefl(a: Host)
    ensures StrLe(a, a)
  {
  }

  lemma {:induction false} StrLeTotal(a: Host, b: Host)
    ensures StrLe(a, b) || StrLe(b, a)
    ensures StrLe(a, b) && StrLe(b, a) ==> a == b
  {
    if a != [] && b != [] {
      StrLeTotal(a[1..], b[1..]);
      assert a == [a[0]] + a[1..] && b == [b[0]] + b[1..];
    }
  }

  lemma {:induction false} StrLeTrans(a: Host, b: Host, c: Host)
    requires StrLe(a, b) && StrLe(b, c)
    ensures StrLe(a, c)
  {
    if a != [] && a[0] == b[0] == c[0] {
      StrLeTrans(a[1..], b[1..], c[1..]);
    }
  }

  predicate IsLeastHost(s: set<Host>, h: Host) {
    h in s && forall k :: k in s ==> StrLe(h, k)
  }

  lemma {:induction false} LeastHostExists(s: set<Host>)
    requires s != {}
    ensures exists h :: IsLeastHost(s, h)
  {
    var x :| x in s;
    StrLeRefl(x);
    if s == {x} {
      assert IsLeastHost(s, x);
    } else {
      LeastHostExists(s - {x});
      var h :| IsLeastHost(s - {x}, h);
      StrLeTotal(h, x);
      if StrLe(h, x) {
        assert IsLeastHost(s, h) by {
          assert forall k :: k in s ==> k == x || k in s - {x};
        }
      } else {
        forall k | k in s ensures StrLe(x, k) {
          if k != x {
            assert k in s - {x};
            StrLeTrans(x, h, k);
          }
        }
        assert IsLeastHost(s, x);
      }
    }
  }

  lemma LeastHostUnique(s: set<Host>, h: Host, h': Host)
    requires IsLeastHost(s, h) && IsLeastHost(s, h')
    ensures h == h'
  {
    StrLeTotal(h, h');
  }

  ghost function LeastHost(s: set<Host>): (h: Host)
    requires s != {}
    ensures IsLeastHost(s, h)
  {
    LeastHostExists(s);
    var h :| IsLeastHost(s, h);
    h
  }

  ghost predicate IsLeast(s: set<Addr>, ip: Addr) {
    ip in s && forall k :: k in s ==> ip <= k
  }

  lemma {:induction false} LeastExists(s: set<Addr>)
    requires s != {}
    ensures exists ip :: IsLeast(s, ip)
  {
    var x :| x in s;
    if s == {x} {
      assert IsLeast(s, x);
    } else {
      LeastExists(s - {x});
      var y :| IsLeast(s - {x}, y);
      assert forall k :: k in s ==> k == x || k in s - {x};
      assert IsLeast(s, if x < y then x else y);
    }
  }

  ghost function Least(s: set<Addr>): (ip: Addr)
    requires s != {}
    ensures IsLeast(s, ip)
  {
    LeastExists(s);
    var ip :| IsLeast(s, ip);
    ip
  }

  // ---- The specification of a plan ----

  // Whether an existing reservation is kept at all: it has a host, lies in the range, and is not a
  // retired one whose retention is over.
  predicate Kept(r: Range, ip: Addr, e: Entry, now: int) {
    e.host != "" && r.Contains(ip) && (e.Retired? ==> now - e.at < RETENTION)
  }

  function KeptEntries(r: Range, existing: map<Addr, Entry>, now: int): (res: map<Addr, Entry>) {
    map ip | ip in existing && Kept(r, ip, existing[ip], now) :: existing[ip]
  }

  function IPsOf(entries: map<Addr, Entry>, h: Host): (r: set<Addr>) {
    set ip | ip in entries && entries[ip].host == h
  }

  function ActiveOf(entries: map<Addr, Entry>, h: Host): (r: set<Addr>) {
    set ip | ip in entries && entries[ip] == Active(h)
  }

  // A watched host keeps its lowest active fake IP, or else its lowest retired one.
  ghost function KeepIP(kept: map<Addr, Entry>, h: Host): (r: Addr)
    requires IPsOf(kept, h) != {}
  {
    if ActiveOf(kept, h) != {} then Least(ActiveOf(kept, h)) else Least(IPsOf(kept, h))
  }

  ghost function SettledEntry(kept: map<Addr, Entry>, watched: set<Host>, now: int, ip: Addr): (r: Entry)
    requires ip in kept
  {
    var e := kept[ip];
    assert ip in IPsOf(kept, e.host);
    if e.host in watched && ip == KeepIP(kept, e.host) then Active(e.host)
    else if e.Retired? then e
    else Retired(e.host, now)
  }

  ghost function SettledEntries(kept: map<Addr, Entry>, watched: set<Host>, now: int): (r: map<Addr, Entry>) {
    map ip | ip in kept :: SettledEntry(kept, watched, now, ip)
  }

  ghost function SettledHosts(kept: map<Addr, Entry>, watched: set<Host>): (r: map<Host, Addr>) {
    map h | h in watched && IPsOf(kept, h) != {} :: KeepIP(kept, h)
  }

  // The order retired reservations go in: the longest retired first, the lowest address on a tie.
  predicate GoesBefore(a: int, ip: Addr, b: int, jp: Addr) {
    a < b || (a == b && ip <= jp)
  }

  function RetiredIPs(entries: map<Addr, Entry>): (r: set<Addr>) {
    set ip | ip in entries && entries[ip].Retired?
  }

  ghost predicate IsOldest(entries: map<Addr, Entry>, ip: Addr) {
    && ip in entries && entries[ip].Retired?
    && forall j :: j in entries && entries[j].Retired? ==> GoesBefore(entries[ip].at, ip, entries[j].at, j)
  }

  ghost predicate IsOldestIn(entries: map<Addr, Entry>, s: set<Addr>, ip: Addr)
    requires s <= RetiredIPs(entries)
  {
    ip in s && forall j :: j in s ==> GoesBefore(entries[ip].at, ip, entries[j].at, j)
  }

  lemma {:induction false} OldestInExists(entries: map<Addr, Entry>, s: set<Addr>)
    requires s != {} && s <= RetiredIPs(entries)
    ensures exists ip :: IsOldestIn(entries, s, ip)
  {
    var x :| x in s;
    if s == {x} {
      assert IsOldestIn(entries, s, x);
    } else {
      OldestInExists(entries, s - {x});
      var y :| IsOldestIn(entries, s - {x}, y);
      assert IsOldestIn(entries, s, if GoesBefore(entries[x].at, x, entries[y].at, y) then x else y);
    }
  }

  ghost function Oldest(entries: map<Addr, Entry>): (ip: Addr)
    requires RetiredIPs(entries) != {}
    ensures IsOldest(entries, ip)
  {
    OldestInExists(entries, RetiredIPs(entries));
    var ip :| IsOldestIn(entries, RetiredIPs(entries), ip);
    assert forall j :: j in entries && entries[j].Retired? ==> j in RetiredIPs(entries);
    ip
  }

  ghost function Evict(p: Plan): (r: Plan)
    requires RetiredIPs(p.entries) != {}
  {
    var ip := Oldest(p.entries);
    p.(entries := p.entries - {ip}, evicted := p.evicted + [Eviction(ip, p.entries[ip])])
  }

  // Retired reservations beyond capacity go, oldest first.
  ghost function EvictDown(p: Plan, capacity: nat): (r: Plan)
    decreases |p.entries|
  {
    if |p.entries| > capacity && RetiredIPs(p.entries) != {} then
      EvictShrinks(p);
      EvictDown(Evict(p), capacity)
    else p
  }

  lemma EvictShrinks(p: Plan)
    requires RetiredIPs(p.entries) != {}
    ensures |Evict(p).entries| == |p.entries| - 1
  {
    var ip := Oldest(p.entries);
    assert p.entries.Keys == Evict(p).entries.Keys + {ip};
  }

  // One host without a fake IP: make room if there is none, then take the first free address.
  ghost function AllocateOne(p: Plan, r: Range, hash: Host -> nat, h: Host, capacity: nat): (res: Plan)
    requires r.Range? && r.Valid()
  {
    if h in p.hosts || h == "" then p
    else if |p.entries| >= capacity && RetiredIPs(p.entries) == {} then p.(unallocated := p.unallocated + [h])
    else
      var q := if |p.entries| >= capacity then Evict(p) else p;
      match FreeIP(r, hash(h), q.entries.Keys)
      case None => q.(unallocated := q.unallocated + [h])
      case Some(ip) => q.(entries := q.entries[ip := Active(h)], hosts := q.hosts[h := ip])
  }

  ghost function Allocate(p: Plan, r: Range, hash: Host -> nat, todo: set<Host>, capacity: nat): (res: Plan)
    requires todo != {} ==> r.Range? && r.Valid()
    decreases |todo|
  {
    if todo == {} then p
    else
      var h := LeastHost(todo);
      Allocate(AllocateOne(p, r, hash, h, capacity), r, hash, todo - {h}, capacity)
  }

  ghost function Settle(r: Range, watched: set<Host>, existing: map<Addr, Entry>, now: int): (res: Plan) {
    var kept := KeptEntries(r, existing, now);
    Plan(SettledEntries(kept, watched, now), SettledHosts(kept, watched), [], [])
  }

  ghost function PlanOf(r: Range, hash: Host -> nat, watched: set<Host>, existing: map<Addr, Entry>, now: int, capacity: nat): (res: Plan)
    requires watched != {} ==> r.Range? && r.Valid()
  {
    Allocate(EvictDown(Settle(r, watched, existing, now), capacity), r, hash, watched, capacity)
  }

  lemma {:induction false} SubsetSize<T>(a: set<T>, b: set<T>)
    requires a <= b
    ensures |a| <= |b|
  {
    assert b == a + (b - a);
  }
}
