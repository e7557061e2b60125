/** The UDP checksum of a rewritten answer: updating it word by word, at even and odd offsets, against summing the
    whole message again (RFC 1071, RFC 1624). Sums are of the bytes in network order, modulo 0xFFFF. */
module DnsChecksum {
  import opened Wire
  import opened DnsWire
  import opened DnsRewrite

  // The sum of v's 16-bit words; `odd` when v starts in the middle of a word.
  function Sum(v: seq<Byte>, odd: bool): (r: nat) {
    if v == [] then 0 else (if odd then Rd8(v, 0) else 256 * Rd8(v, 0)) + Sum(v[1..], !odd)
  }

  predicate Odd(n: nat) {
    n % 2 == 1
  }

  lemma {:induction false} SumAppend(a: seq<Byte>, b: seq<Byte>, odd: bool)
    ensures Sum(a + b, odd) == Sum(a, odd) + Sum(b, odd != Odd(|a|))
  {
    if a == [] {
      assert a + b == b;
    } else {
      SumAppend(a[1..], b, !odd);
      assert (a + b)[1..] == a[1..] + b;
    }
  }

  lemma SumMiddle(a: seq<Byte>, b: seq<Byte>, c: seq<Byte>)
    ensures Sum(a + (b + c), false) == Sum(a, false) + Sum(b, Odd(|a|)) + Sum(c, Odd(|a| + |b|))
  {
    SumAppend(a, b + c, false);
    SumAppend(b, c, Odd(|a|));
    hide Sum;
  }

  lemma PutParts(v: seq<Byte>, at: nat, bytes: seq<Byte>)
    requires at + |bytes| <= |v|
    ensures v == v[..at] + (v[at..at + |bytes|] + v[at + |bytes|..])
    ensures Put(v, at, bytes) == v[..at] + (bytes + v[at + |bytes|..])
  {
  }

  // Overwriting bytes moves the sum by the difference of theirs.
  lemma SumPut(v: seq<Byte>, at: nat, bytes: seq<Byte>)
    requires at + |bytes| <= |v|
    ensures Sum(Put(v, at, bytes), false) + Sum(v[at..at + |bytes|], Odd(at)) == Sum(v, false) + Sum(bytes, Odd(at))
  {
    hide Sum, Odd;
    var a, o, c := v[..at], v[at..at + |bytes|], v[at + |bytes|..];
    PutParts(v, at, bytes);
    hide Put;
    SumMiddle(a, o, c);
    SumMiddle(a, bytes, c);
  }

  // ---- csum_odd_bytes ----

  function CsumOddBytes(v: bv32): (r: bv32) {
    ((v & 0x00FF_00FF) << 8) | ((v >> 8) & 0x00FF_00FF)
  }

  function ByteAt(v: bv32, i: nat): (r: bv32)
    requires i < 4
  {
    if i == 0 then v & 0xFF else if i == 1 then (v >> 8) & 0xFF else if i == 2 then (v >> 16) & 0xFF else v >> 24
  }

  // It swaps the bytes of each half, whatever the order of the bytes in memory.
  lemma CsumOddSwaps(v: bv32)
    ensures var w := CsumOddBytes(v);
            ByteAt(w, 0) == ByteAt(v, 1) && ByteAt(w, 1) == ByteAt(v, 0) && ByteAt(w, 2) == ByteAt(v, 3) && ByteAt(w, 3) == ByteAt(v, 2)
  {
  }

  // The same on four bytes in memory.
  function OddBytes(b: seq<Byte>): (c: seq<Byte>)
    requires |b| == 4
    ensures |c| == 4
  {
    [b[1], b[0], b[3], b[2]]
  }

  // Bytes at an odd offset sum as the swapped bytes do at an even one.
  lemma SumOddBytes(b: seq<Byte>)
    requires |b| == 4
    ensures Sum(OddBytes(b), false) == Sum(b, true)
  {
    SumFour(b, true);
    SumFour(OddBytes(b), false);
  }

  lemma SumFour(b: seq<Byte>, odd: bool)
    requires |b| == 4
    ensures Sum(b, odd) == if odd then Rd8(b, 0) + 256 * Rd8(b, 1) + Rd8(b, 2) + 256 * Rd8(b, 3)
                           else 256 * Rd8(b, 0) + Rd8(b, 1) + 256 * Rd8(b, 2) + Rd8(b, 3)
  {
    var b1, b2, b3 := b[1..], b[2..], b[3..];
    assert b1[1..] == b2 && b2[1..] == b3 && b3[1..] == [];
    assert Sum(b3, !odd) == if odd then 256 * Rd8(b, 3) else Rd8(b, 3);
    assert Sum(b2, odd) == (if odd then Rd8(b, 2) else 256 * Rd8(b, 2)) + Sum(b3, !odd);
    assert Sum(b1, !odd) == (if odd then 256 * Rd8(b, 1) else Rd8(b, 1)) + Sum(b2, odd);
  }

  // ---- Replacing words ----

  predicate Same(a: int, b: int) {
    (a - b) % 0xFFFF == 0
  }

  // bpf_l4_csum_replace with BPF_F_MARK_MANGLED_0: the field, which holds the complement of the sum, moves by
  // the opposite of the change; 0 is written as 0xFFFF.
  function L4CsumReplace(check: nat, from: seq<Byte>, to: seq<Byte>): (c: nat)
    ensures 0 < c <= 0xFFFF && Same(c + Sum(to, false), check + Sum(from, false))
  {
    var c := (check + Sum(from, false) - Sum(to, false)) % 0xFFFF;
    if c == 0 then 0xFFFF else c
  }

  lemma SameTrans(a: int, b: int, c: int)
    requires Same(a, b) && Same(b, c)
    ensures Same(a, c)
  {
  }

  lemma SameChain(check: int, c: int, c': int, from: int, to: int, f: int, t: int)
    requires Same(c' + t, c + f) && Same(c + to, check + from)
    ensures Same(c' + (to + t), check + (from + f))
  {
  }

  // The field after one word, at an even or odd offset.
  function WordReplaced(c: nat, f: seq<Byte>, t: seq<Byte>, odd: bool): (c': nat)
    requires |f| == |t| == 4
    ensures Same(c' + Sum(t, odd), c + Sum(f, odd))
  {
    SumOddBytes(f);
    SumOddBytes(t);
    if odd then L4CsumReplace(c, OddBytes(f), OddBytes(t)) else L4CsumReplace(c, f, t)
  }

  // The field after all the words of an address.
  method UpdateCsum(check: nat, from: seq<Byte>, to: seq<Byte>, odd: bool) returns (c: nat)
    requires |from| == |to| && |to| % 4 == 0
    ensures Same(c + Sum(to, odd), check + Sum(from, odd))
  {
    hide WordReplaced, Same;
    c := check;
    assert to[..0] == [] && from[..0] == [];
    SameItself(c, to[..0], from[..0], odd);
    var k := 0;
    while k < |to|
      invariant 0 <= k <= |to| && k % 4 == 0
      invariant Same(c + Sum(to[..k], odd), check + Sum(from[..k], odd))
    {
      var f, t := from[k..k + 4], to[k..k + 4];
      var next := WordReplaced(c, f, t, odd);
      SumAppend(from[..k], f, odd);
      SumAppend(to[..k], t, odd);
      SameChain(check, c, next, Sum(from[..k], odd), Sum(to[..k], odd), Sum(f, odd), Sum(t, odd));
      assert to[..k + 4] == to[..k] + t && from[..k + 4] == from[..k] + f;
      c := next;
      k := k + 4;
    }
    assert to[..|to|] == to && from[..|to|] == from;
  }

  lemma SameItself(c: nat, to: seq<Byte>, from: seq<Byte>, odd: bool)
    requires to == from == []
    ensures Same(c + Sum(to, odd), c + Sum(from, odd))
  {
  }

  // bpf_skb_store_bytes
  method StoreBytes(msg: array<Byte>, at: nat, to: seq<Byte>)
    requires at + |to| <= msg.Length
    modifies msg
    ensures msg[..] == Put(old(msg[..]), at, to)
  {
    ghost var was := msg[..];
    var i := 0;
    while i < |to|
      invariant 0 <= i <= |to|
      invariant forall k :: 0 <= k < msg.Length ==> msg[k] == if at <= k < at + i then to[k - at] else was[k]
    {
      msg[at + i] := to[i];
      i := i + 1;
    }
    assert msg[..] == Put(was, at, to);
  }

  // vip_rewrite_addr: overwrites the address at `at` (an A's 4 or an AAAA's 16 bytes) and moves the checksum.
  method VipRewriteAddr(msg: array<Byte>, at: nat, check: nat, hasCsum: bool, from: seq<Byte>, to: seq<Byte>) returns (c: nat)
    requires |from| == |to| && |to| % 4 == 0 && at + |to| <= msg.Length && msg[at..at + |to|] == from
    modifies msg
    ensures msg[..] == Put(old(msg[..]), at, to)
    ensures hasCsum ==> Same(c + Sum(msg[..], false), check + Sum(old(msg[..]), false))
    ensures !hasCsum ==> c == check
  {
    hide Put, Sum;
    ghost var was := msg[..];
    assert was[at..at + |to|] == from;
    StoreBytes(msg, at, to);
    c := check;
    if !hasCsum {
      return;
    }
    c := UpdateCsum(check, from, to, Odd(at));
    SumPut(was, at, to);
  }

  // ---- The whole rewrite ----

  // The listed addresses are what the message holds there.
  predicate There(v: seq<Byte>, as': seq<Addr>) {
    forall i :: 0 <= i < |as'| ==> as'[i].off + |as'[i].ip| <= |v| && v[as'[i].off..as'[i].off + |as'[i].ip|] == as'[i].ip
  }

  // Overwriting one listed address leaves the later ones alone.
  lemma ThereLater(v: seq<Byte>, as': seq<Addr>, off: nat, end: nat, len: nat, fake: seq<Byte>)
    requires as' != [] && There(v, as') && Spread(as', off, end, len) && |fake| == len
    ensures Spread(as'[1..], off, end, len) && There(v, as'[1..])
    ensures as'[0].off + len <= |v| && There(Put(v, as'[0].off, fake), as'[1..])
  {
    var w := Put(v, as'[0].off, fake);
    forall i | 0 <= i < |as'[1..]|
      ensures as'[1..][i].off + |as'[1..][i].ip| <= |w| && w[as'[1..][i].off..as'[1..][i].off + |as'[1..][i].ip|] == as'[1..][i].ip
      ensures v[as'[1..][i].off..as'[1..][i].off + |as'[1..][i].ip|] == as'[1..][i].ip
    {
      var a := as'[i + 1];
      assert as'[1..][i] == a && as'[0].off + len <= a.off;
      assert w[a.off..a.off + |a.ip|] == v[a.off..a.off + |a.ip|];
    }
  }

  // One record of the rewriting loop.
  method RewriteRecord(msg: array<Byte>, rec: Addr, ghost rest: seq<Addr>, ghost off: nat, ghost end: nat, check: nat, hasCsum: bool,
                       inRange: seq<Byte> -> bool, fake: seq<Byte>) returns (c: nat)
    requires |fake| % 4 == 0 && Inside([rec] + rest, |fake|, msg.Length)
    requires Spread([rec] + rest, off, end, |fake|) && There(msg[..], [rec] + rest)
    modifies msg
    ensures Inside(rest, |fake|, msg.Length) && Spread(rest, off, end, |fake|) && There(msg[..], rest)
    ensures Rewritten(msg[..], rest, inRange, fake) == Rewritten(old(msg[..]), [rec] + rest, inRange, fake)
    ensures hasCsum ==> Same(c + Sum(msg[..], false), check + Sum(old(msg[..]), false))
    ensures !hasCsum ==> c == check
  {
    hide *;
    ghost var v := msg[..];
    RecordStep(v, rec, rest, off, end, inRange, fake);
    c := check;
    if !inRange(rec.ip) {
      c := VipRewriteAddr(msg, rec.off, check, hasCsum, rec.ip, fake);
    } else {
      SameSelf(check + Sum(v, false));
    }
  }

  lemma RecordStep(v: seq<Byte>, rec: Addr, rest: seq<Addr>, off: nat, end: nat, inRange: seq<Byte> -> bool, fake: seq<Byte>)
    requires Inside([rec] + rest, |fake|, |v|) && Spread([rec] + rest, off, end, |fake|) && There(v, [rec] + rest)
    ensures rec.off + |fake| <= |v| && |rec.ip| == |fake| && v[rec.off..rec.off + |fake|] == rec.ip
    ensures Inside(rest, |fake|, |v|) && Spread(rest, off, end, |fake|) && There(v, rest) && There(Put(v, rec.off, fake), rest)
    ensures var v' := if inRange(rec.ip) then v else Put(v, rec.off, fake);
            Rewritten(v', rest, inRange, fake) == Rewritten(v, [rec] + rest, inRange, fake)
  {
    var all := [rec] + rest;
    assert all[1..] == rest && all[0] == rec;
    ThereLater(v, all, off, end, |fake|, fake);
    InsideRest(all, |fake|, |v|);
    hide Put;
  }

  lemma SameSelf(a: int)
    ensures Same(a, a)
  {
  }

  lemma InsideRest(as': seq<Addr>, len: nat, n: nat)
    requires as' != [] && Inside(as', len, n)
    ensures Inside(as'[1..], len, n) && as'[0].off + len <= n
  {
  }

  // The rewriting loop of tc_dns_rewrite: afterwards the message is the rewritten one, and a checksum that was
  // right is right.
  method RewriteAnswer(msg: array<Byte>, recs: seq<Addr>, ghost off: nat, ghost end: nat, check: nat, hasCsum: bool,
                       inRange: seq<Byte> -> bool, fake: seq<Byte>) returns (c: nat)
    requires |fake| % 4 == 0
    requires Spread(recs, off, end, |fake|) && There(msg[..], recs) && Inside(recs, |fake|, msg.Length)
    modifies msg
    ensures msg[..] == Rewritten(old(msg[..]), recs, inRange, fake)
    ensures hasCsum ==> Same(c + Sum(msg[..], false), check + Sum(old(msg[..]), false))
    ensures !hasCsum ==> c == check
  {
    hide Sum, Same, Spread, There, Inside;
    c := check;
    ghost var was := msg[..];
    SameSelf(check + Sum(was, false));
    assert recs[0..] == recs;
    var i := 0;
    while i < |recs|
      invariant 0 <= i <= |recs| && Spread(recs[i..], off, end, |fake|) && There(msg[..], recs[i..]) && Inside(recs[i..], |fake|, msg.Length)
      invariant Rewritten(msg[..], recs[i..], inRange, fake) == Rewritten(was, recs, inRange, fake)
      invariant hasCsum ==> Same(c + Sum(msg[..], false), check + Sum(was, false))
      invariant !hasCsum ==> c == check
    {
      hide Rewritten;
      ghost var v, c0 := msg[..], c;
      assert recs[i..] == [recs[i]] + recs[i + 1..];
      c := RewriteRecord(msg, recs[i], recs[i + 1..], off, end, c, hasCsum, inRange, fake);
      if hasCsum {
        SameTrans(c + Sum(msg[..], false), c0 + Sum(v, false), check + Sum(was, false));
      }
      i := i + 1;
    }
    assert recs[i..] == [];
  }
}
