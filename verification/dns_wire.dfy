/** DNS responses on the wire (section 4.1 of RFC 1035): names, questions and answer records, printed. */
module DnsWire {
  import opened Options
  import opened Wire

  // v holds p at off, all of it.
  predicate Whole(v: seq<Byte>, off: nat, p: seq<Byte>) {
    off + |p| <= |v| && v[off..off + |p|] == p
  }

  lemma WholeSplit(v: seq<Byte>, off: nat, p: seq<Byte>, q: seq<Byte>)
    ensures Whole(v, off, p + q) <==> Whole(v, off, p) && Whole(v, off + |p|, q)
  {
    if Whole(v, off, p + q) {
      assert v[off..off + |p|] == v[off..off + |p + q|][..|p|];
      assert v[off + |p|..off + |p + q|] == v[off..off + |p + q|][|p|..];
    }
    if Whole(v, off, p) && Whole(v, off + |p|, q) {
      assert v[off..off + |p + q|] == v[off..off + |p|] + v[off + |p|..off + |p + q|];
    }
  }

  lemma WholeByte(v: seq<Byte>, off: nat, b: Byte)
    ensures Whole(v, off, [b]) <==> off < |v| && v[off] == b
  {
    if Whole(v, off, [b]) {
      assert v[off] == v[off..off + 1][0];
    }
  }

  lemma WholeU16(v: seq<Byte>, off: nat, n: nat)
    requires n < 0x1_0000
    ensures Whole(v, off, U16(n)) <==> off + 2 <= |v| && Rd16(v, off) == n
  {
    if Whole(v, off, U16(n)) {
      assert v[off] == v[off..off + 2][0] && v[off + 1] == v[off..off + 2][1];
    }
    if off + 2 <= |v| && Rd16(v, off) == n {
      U16Read(v, off);
    }
  }

  // ---- Names ----

  predicate ValidLabels(ls: seq<seq<Byte>>) {
    forall i :: 0 <= i < |ls| ==> 1 <= |ls[i]| <= 63
  }

  function PrintLabels(ls: seq<seq<Byte>>): (r: seq<Byte>)
    requires ValidLabels(ls)
  {
    if ls == [] then [] else [|ls[0]|] + (ls[0] + PrintLabels(ls[1..]))
  }

  // A name ends with the root label or with a pointer.
  datatype Name = Name(labels: seq<seq<Byte>>, ptr: Option<nat>)

  predicate ValidName(n: Name) {
    ValidLabels(n.labels) && (n.ptr.Some? ==> n.ptr.value < 0x4000)
  }

  function PrintEnd(n: Name): (r: seq<Byte>)
    requires ValidName(n)
  {
    match n.ptr
    case None => [0]
    case Some(p) => [0xC0 + p / 256, p % 256]
  }

  function PrintName(n: Name): (r: seq<Byte>)
    requires ValidName(n)
  {
    PrintLabels(n.labels) + PrintEnd(n)
  }

  // The bytes a host's label may have.
  predicate HostLabels(ls: seq<seq<Byte>>) {
    forall i, j :: 0 <= i < |ls| && 0 <= j < |ls[i]| ==> LabelByte(ls[i][j])
  }

  predicate LabelByte(c: Byte) {
    Lower(c) != 0x2e && HostByte(Lower(c))
  }

  // The labels appended to what is there, lowercased, with dots between.
  function Joined(name: seq<Byte>, ls: seq<seq<Byte>>): (j: seq<Byte>)
    ensures |j| >= |name|
    decreases |ls|
  {
    if ls == [] then name else Joined((if name == [] then [] else name + [0x2e]) + LowerAll(ls[0]), ls[1..])
  }

  // ---- Records ----

  datatype Record = Record(owner: Name, typ: nat, cls: nat, ttl: nat, rdata: seq<Byte>)

  predicate ValidRecord(r: Record) {
    ValidName(r.owner) && r.typ < 0x1_0000 && r.cls < 0x1_0000 && r.ttl < 0x1_0000_0000 && |r.rdata| < 0x1_0000
  }

  function PrintFields(r: Record): (p: seq<Byte>)
    requires ValidRecord(r)
    ensures |p| == 10
  {
    U16(r.typ) + (U16(r.cls) + (U16(r.ttl / 0x1_0000) + (U16(r.ttl % 0x1_0000) + U16(|r.rdata|))))
  }

  // Past its owner name.
  function PrintBody(r: Record): (res: seq<Byte>)
    requires ValidRecord(r)
  {
    PrintFields(r) + r.rdata
  }

  predicate ValidRecords(rs: seq<Record>) {
    forall i :: 0 <= i < |rs| ==> ValidRecord(rs[i])
  }

  function PrintRecords(rs: seq<Record>): (r: seq<Byte>)
    requires ValidRecords(rs)
  {
    if rs == [] then [] else PrintName(rs[0].owner) + (PrintBody(rs[0]) + PrintRecords(rs[1..]))
  }

  // ---- The records that answer a question ----

  const TYPE_A := 1
  const TYPE_AAAA := 28
  const CLASS_IN := 1
  const MAX_ADDR_RECORDS := 8

  // dns_addr_len
  function AddrLen(qtype: nat): (r: nat) {
    if qtype == TYPE_A then 4 else if qtype == TYPE_AAAA then 16 else 0
  }

  predicate Answers(r: Record, qtype: nat) {
    AddrLen(qtype) != 0 && r.typ == qtype && r.cls == CLASS_IN
  }

  // A listed record: where its address is, its TTL and the address.
  datatype Addr = Addr(off: nat, ttl: nat, ip: seq<Byte>)

  function CountOf(rs: seq<Record>, qtype: nat): (r: nat) {
    if rs == [] then 0 else (if Answers(rs[0], qtype) then 1 else 0) + CountOf(rs[1..], qtype)
  }

  // The answering records of rs, printed at off.
  function Listing(rs: seq<Record>, off: nat, qtype: nat): (as': seq<Addr>)
    requires ValidRecords(rs)
    ensures |as'| == CountOf(rs, qtype)
  {
    if rs == [] then [] else
    var at := off + |PrintName(rs[0].owner)| + 10;
    (if Answers(rs[0], qtype) then [Addr(at, rs[0].ttl, rs[0].rdata)] else []) +
    Listing(rs[1..], at + |rs[0].rdata|, qtype)
  }

  // Their addresses have the length of the type.
  predicate RightLengths(rs: seq<Record>, qtype: nat) {
    forall i :: 0 <= i < |rs| && Answers(rs[i], qtype) ==> |rs[i].rdata| == AddrLen(qtype)
  }

  // Where the listed addresses are, from off to end: in order, without overlap.
  predicate Spread(as': seq<Addr>, off: nat, end: nat, len: nat) {
    && (forall i :: 0 <= i < |as'| ==> |as'[i].ip| == len && off < as'[i].off && as'[i].off + len <= end)
    && (forall i, j :: 0 <= i < j < |as'| ==> as'[i].off + len <= as'[j].off)
  }

  lemma SpreadMore(a: Addr, rest: seq<Addr>, off: nat, mid: nat, end: nat, len: nat)
    requires Spread(rest, mid, end, len) && |a.ip| == len && off < a.off && a.off + len <= mid <= end
    ensures Spread([a] + rest, off, end, len)
  {
    var all := [a] + rest;
    forall i, j | 0 <= i < j < |all| ensures all[i].off + len <= all[j].off {
      assert all[j] == rest[j - 1];
      assert i > 0 ==> all[i] == rest[i - 1];
    }
  }

  // The listed addresses are in the printed part, in order, and do not overlap.
  lemma {:induction false} ListingDisjoint(rs: seq<Record>, off: nat, qtype: nat)
    requires ValidRecords(rs) && RightLengths(rs, qtype)
    ensures Spread(Listing(rs, off, qtype), off, off + |PrintRecords(rs)|, AddrLen(qtype))
  {
    hide *;
    if rs == [] {
      NothingListed(off, qtype);
    } else {
      RestOfRecords(rs, qtype);
      FirstListed(rs, off, qtype);
      var at := off + |PrintName(rs[0].owner)| + 10;
      var mid := at + |rs[0].rdata|;
      ListingDisjoint(rs[1..], mid, qtype);
      var rest, end := Listing(rs[1..], mid, qtype), off + |PrintRecords(rs)|;
      if Answers(rs[0], qtype) {
        assert at + AddrLen(qtype) <= mid <= end && off < at;
        SpreadMore(Addr(at, rs[0].ttl, rs[0].rdata), rest, off, mid, end, AddrLen(qtype));
      } else {
        SpreadEarlier(rest, off, mid, end, AddrLen(qtype));
      }
    }
  }

  lemma NothingListed(off: nat, qtype: nat)
    ensures Spread(Listing([], off, qtype), off, off + |PrintRecords([])|, AddrLen(qtype))
  {
  }

  lemma SpreadEarlier(as': seq<Addr>, off: nat, mid: nat, end: nat, len: nat)
    requires Spread(as', mid, end, len) && off <= mid
    ensures Spread(as', off, end, len)
  {
  }

  lemma FirstListed(rs: seq<Record>, off: nat, qtype: nat)
    requires ValidRecords(rs) && rs != [] && ValidRecords(rs[1..])
    ensures var at := off + |PrintName(rs[0].owner)| + 10;
            && Listing(rs, off, qtype) == (if Answers(rs[0], qtype) then [Addr(at, rs[0].ttl, rs[0].rdata)] else [])
                                          + Listing(rs[1..], at + |rs[0].rdata|, qtype)
            && |PrintRecords(rs)| == |PrintName(rs[0].owner)| + 10 + |rs[0].rdata| + |PrintRecords(rs[1..])|
            && (!Answers(rs[0], qtype) ==> Listing(rs, off, qtype) == Listing(rs[1..], at + |rs[0].rdata|, qtype))
  {
    hide PrintName, Answers, PrintFields;
  }

  lemma RestOfRecords(rs: seq<Record>, qtype: nat)
    requires rs != []
    ensures ValidRecords(rs) <==> ValidRecord(rs[0]) && ValidRecords(rs[1..])
    ensures ValidRecords(rs) ==> ValidName(rs[0].owner)
    ensures RightLengths(rs, qtype) <==>
              (Answers(rs[0], qtype) ==> |rs[0].rdata| == AddrLen(qtype)) && RightLengths(rs[1..], qtype)
  {
    assert ValidRecord(rs[0]) ==> ValidName(rs[0].owner);
    hide ValidRecord, Answers, AddrLen;
    assert forall i :: 1 <= i < |rs| ==> rs[i] == rs[1..][i - 1];
    assert forall i :: 0 <= i < |rs[1..]| ==> rs[1..][i] == rs[i + 1];
    if ValidRecord(rs[0]) && ValidRecords(rs[1..]) {
      forall i | 0 <= i < |rs| ensures ValidRecord(rs[i]) {
        assert i > 0 ==> ValidRecord(rs[1..][i - 1]);
      }
    }
    if (Answers(rs[0], qtype) ==> |rs[0].rdata| == AddrLen(qtype)) && RightLengths(rs[1..], qtype) {
      forall i | 0 <= i < |rs| && Answers(rs[i], qtype) ensures |rs[i].rdata| == AddrLen(qtype) {
        assert i > 0 ==> Answers(rs[1..][i - 1], qtype);
      }
    }
  }
}
