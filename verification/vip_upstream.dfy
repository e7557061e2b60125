/** The real addresses recorded for a fake IP (vip_upstream): recording one and picking one. */
module VipUpstream {
  import opened Options

  // An IPv4 or IPv6 address, as a number.
  datatype IP = V4(n: nat) | V6(n: nat)

  const SLOTS := 4
  const MAX64 := 0xFFFF_FFFF_FFFF_FFFF

  // A recorded address and when it expires (0: an empty slot). `host` is not in the map: it is the
  // host of the DNS answer the address came from.
  datatype Slot = Slot(ip: IP, expires: nat, host: string)

  predicate Live(s: Slot) {
    s.expires != 0
  }

  predicate IsUpstream(v: seq<Slot>) {
    |v| == SLOTS && forall i :: 0 <= i < SLOTS ==> v[i].expires <= MAX64
  }

  const EMPTY: seq<Slot> := [Slot(V4(0), 0, ""), Slot(V4(0), 0, ""), Slot(V4(0), 0, ""), Slot(V4(0), 0, "")]

  // :: or 0.0.0.0
  predicate Unspecified(ip: IP) {
    ip.n == 0
  }

  predicate Holds(v: seq<Slot>, ip: IP) {
    exists i :: 0 <= i < |v| && Live(v[i]) && v[i].ip == ip
  }

  // The slot a new address takes: the first of those that expire first.
  ghost predicate IsVictim(v: seq<Slot>, k: int) {
    && 0 <= k < |v|
    && (forall i :: 0 <= i < |v| ==> v[k].expires <= v[i].expires)
    && (forall i :: 0 <= i < k ==> v[i].expires > v[k].expires)
  }

  // Recording ip until `expires`: a slot already holding it keeps the later expiry, otherwise it takes
  // the slot that expires first; every other slot stays. Nothing is recorded for an unspecified address.
  ghost predicate Recorded(before: seq<Slot>, after: seq<Slot>, ip: IP, expires: nat, host: string)
    requires |before| == |after| == SLOTS
  {
    if expires == 0 || Unspecified(ip) then after == before
    else if Holds(before, ip) then
      exists k :: && 0 <= k < SLOTS && Live(before[k]) && before[k].ip == ip
                  && after == before[k := before[k].(expires := if expires > before[k].expires then expires else before[k].expires)]
    else
      exists k :: IsVictim(before, k) && after == before[k := Slot(ip, expires, host)]
  }

  method VipUpstreamRecord(v: array<Slot>, ip: IP, expires: nat, host: string)
    requires v.Length == SLOTS && IsUpstream(v[..]) && expires <= MAX64
    modifies v
    ensures IsUpstream(v[..]) && Recorded(old(v[..]), v[..], ip, expires, host)
  {
    if expires == 0 || Unspecified(ip) {
      return;
    }
    var victim, victimExp := 0, MAX64;
    var i := 0;
    while i < SLOTS
      invariant 0 <= i <= SLOTS && 0 <= victim < SLOTS && v[..] == old(v[..])
      invariant forall k :: 0 <= k < i ==> !(Live(v[k]) && v[k].ip == ip)
      invariant victimExp <= MAX64 && (victimExp == MAX64 ==> victim == 0)
      invariant victimExp < MAX64 ==> victim < i && v[victim].expires == victimExp
      invariant forall k :: 0 <= k < i ==> victimExp <= v[k].expires
      invariant forall k :: 0 <= k < victim ==> v[k].expires > victimExp
    {
      var exp := v[i].expires;
      if exp != 0 && v[i].ip == ip {
        assert Holds(old(v[..]), ip) by {
          assert Live(old(v[..])[i]) && old(v[..])[i].ip == ip;
        }
        if expires > exp {
          v[i] := v[i].(expires := expires);
        }
        assert v[..] == old(v[..])[i := old(v[i]).(expires := if expires > exp then expires else exp)];
        return;
      }
      if exp < victimExp {
        victimExp, victim := exp, i;
      }
      i := i + 1;
    }
    assert IsVictim(old(v[..]), victim);
    v[victim] := Slot(ip, expires, host);
    assert v[..] == old(v[..])[victim := Slot(ip, expires, host)];
  }

  // What recording does to the address itself and to the others.
  lemma RecordedMeans(before: seq<Slot>, after: seq<Slot>, ip: IP, expires: nat, host: string)
    requires IsUpstream(before) && |after| == SLOTS && Recorded(before, after, ip, expires, host)
    ensures expires != 0 && !Unspecified(ip) ==> Holds(after, ip)
    ensures forall i :: 0 <= i < SLOTS && after[i] != before[i] ==> Live(after[i]) && after[i].ip == ip
    ensures forall i :: 0 <= i < SLOTS && after[i] != before[i] && before[i].ip != ip ==>
              after[i].host == host && forall j :: 0 <= j < SLOTS ==> before[i].expires <= before[j].expires
    ensures forall i :: 0 <= i < SLOTS && after[i].host != before[i].host ==> after[i].host == host
  {
    if expires != 0 && !Unspecified(ip) {
      if Holds(before, ip) {
        var k :| && 0 <= k < SLOTS && Live(before[k]) && before[k].ip == ip
                 && after == before[k := before[k].(expires := if expires > before[k].expires then expires else before[k].expires)];
        assert Live(after[k]) && after[k].ip == ip;
      } else {
        var k :| IsVictim(before, k) && after == before[k := Slot(ip, expires, host)];
        assert Live(after[k]) && after[k].ip == ip;
      }
    }
  }

  // The number of slots before i that have not expired.
  function Unexpired(v: seq<Slot>, now: nat, i: nat): (n: nat)
    requires i <= |v|
    ensures n <= i
  {
    if i == 0 then 0 else Unexpired(v, now, i - 1) + (if v[i - 1].expires > now then 1 else 0)
  }

  // Which address is picked: one of the unexpired ones if there are any (the rnd-th, counting around),
  // else the first of those that expired last; none only when every slot is empty.
  ghost predicate Picked(v: seq<Slot>, now: nat, rnd: nat, pick: Option<nat>)
    requires |v| == SLOTS
  {
    match pick
    case None => forall i :: 0 <= i < SLOTS ==> !Live(v[i])
    case Some(k) =>
      && k < SLOTS && Live(v[k])
      && (if Unexpired(v, now, SLOTS) > 0
          then v[k].expires > now && Unexpired(v, now, k) == rnd % Unexpired(v, now, SLOTS)
          else && (forall i :: 0 <= i < SLOTS ==> v[i].expires <= v[k].expires)
               && (forall i :: 0 <= i < k ==> v[i].expires < v[k].expires))
  }

  // The unexpired slots are counted off in order, so a pick is determined.
  lemma {:induction false} UnexpiredMonotone(v: seq<Slot>, now: nat, i: nat, j: nat)
    requires i <= j <= |v|
    ensures Unexpired(v, now, i) <= Unexpired(v, now, j)
  {
    if i < j {
      UnexpiredMonotone(v, now, i, j - 1);
    }
  }

  lemma PickedOnce(v: seq<Slot>, now: nat, rnd: nat, a: Option<nat>, b: Option<nat>)
    requires |v| == SLOTS && Picked(v, now, rnd, a) && Picked(v, now, rnd, b)
    ensures a == b
  {
    if a.Some? && b.Some? && a.value != b.value {
      var i, j := if a.value < b.value then a.value else b.value, if a.value < b.value then b.value else a.value;
      UnexpiredMonotone(v, now, i + 1, j);
    }
  }

  method VipUpstreamPick(v: seq<Slot>, now: nat, rnd: nat) returns (pick: Option<nat>)
    requires |v| == SLOTS
    ensures Picked(v, now, rnd, pick)
  {
    var nLive: nat, newest: nat, newestExp: nat := 0, SLOTS, 0;
    for i := 0 to SLOTS
      invariant nLive == Unexpired(v, now, i)
      invariant newest == SLOTS ==> newestExp == 0
      invariant newest < SLOTS ==> newest < i && Live(v[newest]) && v[newest].expires == newestExp
      invariant newest <= SLOTS && forall k :: 0 <= k < i ==> v[k].expires <= newestExp
      invariant forall k :: 0 <= k < newest && newest < SLOTS ==> v[k].expires < newestExp
      invariant newest == SLOTS ==> nLive == 0
    {
      var exp := v[i].expires;
      if exp == 0 {
        continue;
      }
      if exp > now {
        nLive := nLive + 1;
      }
      if exp > newestExp {
        newest, newestExp := i, exp;
      }
    }
    if newest == SLOTS {
      return None;
    }
    var choice: nat := newest;
    if nLive > 0 {
      var k := rnd % nLive;
      var i := 0;
      while i < SLOTS
        invariant 0 <= i <= SLOTS && 0 <= k && Unexpired(v, now, i) == rnd % nLive - k
      {
        if v[i].expires > now {
          if k == 0 {
            choice := i;
            break;
          }
          k := k - 1;
        }
        i := i + 1;
      }
      assert i < SLOTS;
    }
    pick := Some(choice);
  }
}
