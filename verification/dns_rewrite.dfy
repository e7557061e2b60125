/** The rewrite of a DNS answer in place: every listed address becomes the fake one, the UDP checksum follows,
    and the message reads as before. */
module DnsRewrite {
  import opened Options
  import opened Wire
  import opened DnsWire
  import opened DnsWalk

  // ---- The rewritten message ----

  function Put(v: seq<Byte>, at: nat, bytes: seq<Byte>): (w: seq<Byte>)
    requires at + |bytes| <= |v|
    ensures |w| == |v|
  {
    v[..at] + bytes + v[at + |bytes|..]
  }

  // A fake address of the right length.
  ghost predicate Fake(inRange: seq<Byte> -> bool, fake: seq<Byte>, qtype: nat) {
    inRange(fake) && |fake| == AddrLen(qtype)
  }

  // The addresses that are not fake yet are overwritten, in turn.
  function Rewritten(v: seq<Byte>, as': seq<Addr>, inRange: seq<Byte> -> bool, fake: seq<Byte>): (w: seq<Byte>)
    requires Inside(as', |fake|, |v|)
    ensures |w| == |v|
    decreases |as'|
  {
    if as' == [] then v
    else Rewritten(if inRange(as'[0].ip) then v else Put(v, as'[0].off, fake), as'[1..], inRange, fake)
  }

  // The records of the rewritten message, and their list.
  function Replaced(r: Record, qtype: nat, inRange: seq<Byte> -> bool, fake: seq<Byte>): (res: Record) {
    if Answers(r, qtype) && !inRange(r.rdata) then r.(rdata := fake) else r
  }

  function ReplacedAll(rs: seq<Record>, qtype: nat, inRange: seq<Byte> -> bool, fake: seq<Byte>): (rs': seq<Record>)
    ensures |rs'| == |rs|
  {
    if rs == [] then [] else [Replaced(rs[0], qtype, inRange, fake)] + ReplacedAll(rs[1..], qtype, inRange, fake)
  }

  function Faked(a: Addr, inRange: seq<Byte> -> bool, fake: seq<Byte>): (r: Addr) {
    if inRange(a.ip) then a else a.(ip := fake)
  }

  function FakedAll(as': seq<Addr>, inRange: seq<Byte> -> bool, fake: seq<Byte>): (bs: seq<Addr>)
    ensures |bs| == |as'|
  {
    seq(|as'|, i requires 0 <= i < |as'| => Faked(as'[i], inRange, fake))
  }

  lemma FakedAppend(a: seq<Addr>, b: seq<Addr>, inRange: seq<Byte> -> bool, fake: seq<Byte>)
    ensures FakedAll(a + b, inRange, fake) == FakedAll(a, inRange, fake) + FakedAll(b, inRange, fake)
  {
  }

  // The first of the replaced records.
  lemma ReplacedFirst(rs: seq<Record>, qtype: nat, inRange: seq<Byte> -> bool, fake: seq<Byte>)
    requires ValidRecords(rs) && rs != [] && RightLengths(rs, qtype) && Fake(inRange, fake, qtype)
    ensures var rs' := ReplacedAll(rs, qtype, inRange, fake); var r, r' := rs[0], Replaced(rs[0], qtype, inRange, fake);
            && rs' != [] && rs'[0] == r' && rs'[1..] == ReplacedAll(rs[1..], qtype, inRange, fake)
            && ValidRecord(r) && ValidRecord(r') && ValidName(r.owner) && |r'.rdata| == |r.rdata| && r'.owner == r.owner
            && Answers(r', qtype) == Answers(r, qtype) && PrintFields(r') == PrintFields(r)
            && (Answers(r, qtype) ==> |r.rdata| == |fake| == AddrLen(qtype))
            && (if Answers(r, qtype) && !inRange(r.rdata) then r' == r.(rdata := fake) else r' == r)
            && ValidRecords(rs[1..]) && RightLengths(rs[1..], qtype)
  {
    RestOfRecords(rs, qtype);
    var rs' := ReplacedAll(rs, qtype, inRange, fake);
    assert rs'[1..] == ReplacedAll(rs[1..], qtype, inRange, fake);
    hide AddrLen, ValidName, PrintName, RightLengths, ValidRecords;
  }

  // The listing of the replaced record is the faked listing of the record.
  function Here(r: Record, at: nat, qtype: nat): (res: seq<Addr>) {
    if Answers(r, qtype) then [Addr(at, r.ttl, r.rdata)] else []
  }

  lemma NothingFaked(off: nat, qtype: nat, inRange: seq<Byte> -> bool, fake: seq<Byte>)
    ensures ReplacedAll([], qtype, inRange, fake) == [] && Listing([], off, qtype) == FakedAll(Listing([], off, qtype), inRange, fake)
  {
  }

  lemma HereFaked(r: Record, r': Record, at: nat, qtype: nat, inRange: seq<Byte> -> bool, fake: seq<Byte>)
    requires if Answers(r, qtype) && !inRange(r.rdata) then r' == r.(rdata := fake) else r' == r
    requires Answers(r', qtype) == Answers(r, qtype)
    ensures Here(r', at, qtype) == FakedAll(Here(r, at, qtype), inRange, fake)
  {
    hide Answers;
  }

  // Replacing addresses by addresses of the same length keeps the records' lengths ...
  lemma {:induction false} ReplacedFits(rs: seq<Record>, qtype: nat, inRange: seq<Byte> -> bool, fake: seq<Byte>, listed: nat, n: int)
    requires ValidRecords(rs) && RightLengths(rs, qtype) && Fake(inRange, fake, qtype)
    ensures var rs' := ReplacedAll(rs, qtype, inRange, fake);
            && ValidRecords(rs') && RightLengths(rs', qtype) && |PrintRecords(rs')| == |PrintRecords(rs)|
            && (Fits(rs', qtype, listed, n) <==> Fits(rs, qtype, listed, n))
    decreases |rs|
  {
    if rs == [] {
    } else {
      ReplacedFirst(rs, qtype, inRange, fake);
      hide *;
      var rs' := ReplacedAll(rs, qtype, inRange, fake);
      var r, r' := rs[0], rs'[0];
      RestOfRecords(rs', qtype);
      var here := if Answers(r, qtype) then 1 else 0;
      ReplacedFits(rs[1..], qtype, inRange, fake, listed + here, n - |r.owner.labels| - 2);
      FitsStep(rs, qtype, listed, n);
      FitsStep(rs', qtype, listed, n);
      ListedFirst(rs, 0, qtype);
      ListedFirst(rs', 0, qtype);
    }
  }

  // ... and fakes their list.
  lemma {:induction false} ReplacedLists(rs: seq<Record>, off: nat, qtype: nat, inRange: seq<Byte> -> bool, fake: seq<Byte>)
    requires ValidRecords(rs) && RightLengths(rs, qtype) && Fake(inRange, fake, qtype)
    ensures var rs' := ReplacedAll(rs, qtype, inRange, fake);
            ValidRecords(rs') && Listing(rs', off, qtype) == FakedAll(Listing(rs, off, qtype), inRange, fake)
    decreases |rs|
  {
    hide *;
    ReplacedFits(rs, qtype, inRange, fake, 0, 0);
    if rs == [] {
      NothingFaked(off, qtype, inRange, fake);
    } else {
      ReplacedFirst(rs, qtype, inRange, fake);
      var rs' := ReplacedAll(rs, qtype, inRange, fake);
      var r, r' := rs[0], rs'[0];
      var at := off + |PrintName(r.owner)| + 10;
      var next := at + |r.rdata|;
      ReplacedLists(rs[1..], next, qtype, inRange, fake);
      ListedFirst(rs, off, qtype);
      ListedFirst(rs', off, qtype);
      calc {
        Listing(rs', off, qtype);
        Here(r', at, qtype) + Listing(rs'[1..], next, qtype);
        { HereFaked(r, r', at, qtype, inRange, fake); }
        FakedAll(Here(r, at, qtype), inRange, fake) + FakedAll(Listing(rs[1..], next, qtype), inRange, fake);
        { FakedAppend(Here(r, at, qtype), Listing(rs[1..], next, qtype), inRange, fake); }
        FakedAll(Here(r, at, qtype) + Listing(rs[1..], next, qtype), inRange, fake);
        FakedAll(Listing(rs, off, qtype), inRange, fake);
      }
    }
  }

  lemma ListedFirst(rs: seq<Record>, off: nat, qtype: nat)
    requires ValidRecords(rs) && rs != [] && ValidRecord(rs[0]) && ValidName(rs[0].owner) && ValidRecords(rs[1..])
    ensures var at := off + |PrintName(rs[0].owner)| + 10;
            && Listing(rs, off, qtype) == Here(rs[0], at, qtype) + Listing(rs[1..], at + |rs[0].rdata|, qtype)
            && |PrintRecords(rs)| == |PrintName(rs[0].owner)| + 10 + |rs[0].rdata| + |PrintRecords(rs[1..])|
            && PrintRecords(rs) == PrintName(rs[0].owner) + (PrintFields(rs[0]) + rs[0].rdata + PrintRecords(rs[1..]))
  {
    FirstListed(rs, off, qtype);
    hide PrintName, PrintFields, Answers, Listing;
  }

  // ---- The message after the rewrite ----

  predicate Inside(as': seq<Addr>, len: nat, n: nat) {
    forall i :: 0 <= i < |as'| ==> as'[i].off + len <= n
  }

  lemma SpreadInside(as': seq<Addr>, off: nat, end: nat, len: nat, n: nat)
    requires Spread(as', off, end, len) && end <= n
    ensures Inside(as', len, n)
  {
  }

  // Overwriting the first listed address, if it is listed.
  lemma RewrittenFirst(v: seq<Byte>, r: Record, at: nat, rest: seq<Addr>, qtype: nat, inRange: seq<Byte> -> bool, fake: seq<Byte>)
    requires Inside(Here(r, at, qtype) + rest, |fake|, |v|)
    ensures Inside(rest, |fake|, |v|) && (Answers(r, qtype) ==> at + |fake| <= |v|)
    ensures var v' := if Answers(r, qtype) && !inRange(r.rdata) then Put(v, at, fake) else v;
            |v'| == |v| && Rewritten(v, Here(r, at, qtype) + rest, inRange, fake) == Rewritten(v', rest, inRange, fake)
  {
    var all := Here(r, at, qtype) + rest;
    if Answers(r, qtype) {
      assert all[0] == Addr(at, r.ttl, r.rdata) && all[1..] == rest;
      forall i | 0 <= i < |rest| ensures rest[i].off + |fake| <= |v| {
        assert rest[i] == all[i + 1];
      }
    } else {
      assert all == rest;
    }
  }

  lemma ListedInside(pre: seq<Byte>, rs: seq<Record>, post: seq<Byte>, qtype: nat, inRange: seq<Byte> -> bool, fake: seq<Byte>)
    requires ValidRecords(rs) && RightLengths(rs, qtype) && Fake(inRange, fake, qtype)
    ensures Inside(Listing(rs, |pre|, qtype), |fake|, |pre + PrintRecords(rs) + post|)
    ensures ValidRecords(ReplacedAll(rs, qtype, inRange, fake))
  {
    hide *;
    ReplacedFits(rs, qtype, inRange, fake, 0, 0);
    ListingDisjoint(rs, |pre|, qtype);
    FakeLength(inRange, fake, qtype);
    SpreadInside(Listing(rs, |pre|, qtype), |pre|, |pre| + |PrintRecords(rs)|, AddrLen(qtype), |pre + PrintRecords(rs) + post|);
  }

  lemma NothingRewritten(pre: seq<Byte>, post: seq<Byte>, qtype: nat, inRange: seq<Byte> -> bool, fake: seq<Byte>)
    ensures Listing([], |pre|, qtype) == [] && PrintRecords([]) == [] && ReplacedAll([], qtype, inRange, fake) == []
    ensures Rewritten(pre + [] + post, [], inRange, fake) == pre + [] + post
  {
  }

  // Overwriting the listed addresses of printed records prints the replaced records.
  lemma {:induction false} RewrittenPrints(pre: seq<Byte>, rs: seq<Record>, post: seq<Byte>, qtype: nat, inRange: seq<Byte> -> bool, fake: seq<Byte>)
    requires ValidRecords(rs) && RightLengths(rs, qtype) && Fake(inRange, fake, qtype)
    ensures ValidRecords(ReplacedAll(rs, qtype, inRange, fake))
    ensures var v := pre + PrintRecords(rs) + post; var as' := Listing(rs, |pre|, qtype);
            && Inside(as', |fake|, |v|)
            && Rewritten(v, as', inRange, fake) == pre + PrintRecords(ReplacedAll(rs, qtype, inRange, fake)) + post
    decreases |rs|
  {
    hide *;
    ListedInside(pre, rs, post, qtype, inRange, fake);
    var v, as' := pre + PrintRecords(rs) + post, Listing(rs, |pre|, qtype);
    if rs == [] {
      NothingRewritten(pre, post, qtype, inRange, fake);
    } else {
      ReplacedFirst(rs, qtype, inRange, fake);
      var rs' := ReplacedAll(rs, qtype, inRange, fake);
      var r, r' := rs[0], rs'[0];
      var head := pre + PrintName(r.owner) + PrintFields(r);
      RewrittenPrints(head + r'.rdata, rs[1..], post, qtype, inRange, fake);
      ListedFirst(rs, |pre|, qtype);
      ListedFirst(rs', |pre|, qtype);
      var at := |pre| + |PrintName(r.owner)| + 10;
      var list, rest := Listing(rs[1..], at + |r.rdata|, qtype), PrintRecords(rs[1..]);
      var put := Answers(r, qtype) && !inRange(r.rdata);
      RewrittenFirst(v, r, at, list, qtype, inRange, fake);
      var v' := if put then Put(v, at, fake) else v;
      assert v' == head + r'.rdata + rest + post by {
        Regroup(pre, PrintName(r.owner), PrintFields(r), r.rdata, rest, post);
        RegroupTail(head, r'.rdata, rest, post);
        Overwritten(v, head, r.rdata, r'.rdata, rest + post, put, fake);
      }
      calc {
        Rewritten(v, as', inRange, fake);
        Rewritten(v', list, inRange, fake);
        head + r'.rdata + PrintRecords(rs'[1..]) + post;
        { Regroup(pre, PrintName(r.owner), PrintFields(r), r'.rdata, PrintRecords(rs'[1..]), post); }
        pre + PrintRecords(rs') + post;
      }
    }
  }

  lemma FakeLength(inRange: seq<Byte> -> bool, fake: seq<Byte>, qtype: nat)
    requires Fake(inRange, fake, qtype)
    ensures |fake| == AddrLen(qtype)
  {
  }

  lemma Regroup(pre: seq<Byte>, name: seq<Byte>, fields: seq<Byte>, rdata: seq<Byte>, rest: seq<Byte>, post: seq<Byte>)
    ensures pre + (name + (fields + rdata + rest)) + post == pre + name + fields + rdata + (rest + post)
    ensures pre + name + fields + rdata + rest + post == pre + name + fields + rdata + (rest + post)
  {
  }

  lemma RegroupTail(head: seq<Byte>, rdata: seq<Byte>, rest: seq<Byte>, post: seq<Byte>)
    ensures head + rdata + rest + post == head + rdata + (rest + post)
  {
  }

  lemma Overwritten(v: seq<Byte>, head: seq<Byte>, old': seq<Byte>, new': seq<Byte>, tail: seq<Byte>, put: bool, fake: seq<Byte>)
    requires v == head + old' + tail && |old'| == |new'| && new' == if put then fake else old'
    ensures (if put then Put(v, |head|, fake) else v) == head + new' + tail
  {
  }

  // ---- Reading the rewritten message again ----

  // Of any answer that is rewritten: scanning it again finds the same records at the same places with the same
  // TTLs, every address now fake, ...
  lemma RewriteScansAgain(v: seq<Byte>, off: nat, ancount: nat, qtype: nat, inRange: seq<Byte> -> bool, fake: seq<Byte>)
    requires off <= |v| && Fake(inRange, fake, qtype) && ScanAddrRecords(v, off, ancount, qtype).status == Ok
    ensures var recs := ScanAddrRecords(v, off, ancount, qtype).recs;
            && Inside(recs, |fake|, |v|)
            && var again := ScanAddrRecords(Rewritten(v, recs, inRange, fake), off, ancount, qtype);
               && again.status == Ok && |again.recs| == |recs| && Rewritten(v, recs, inRange, fake)[..off] == v[..off]
               && forall i :: 0 <= i < |recs| ==> again.recs[i].off == recs[i].off && again.recs[i].ttl == recs[i].ttl
                                                  && inRange(again.recs[i].ip)
  {
    var rs := ScanIsOfRecords(v, off, ancount, qtype);
    AnswersThere(v, off, ancount, rs);
    AnswersCount(v, off, ancount, rs);
    ScanExactly(v, off, ancount, qtype, rs);
    FitsRight(rs, qtype, 0, SCAN_STEPS);
    hide *;
    var recs := ScanAddrRecords(v, off, ancount, qtype).recs;
    var pre, post := v[..off], v[off + |PrintRecords(rs)|..];
    WholeCut(v, off, PrintRecords(rs));
    RewrittenPrints(pre, rs, post, qtype, inRange, fake);
    var w, rs' := Rewritten(v, recs, inRange, fake), ReplacedAll(rs, qtype, inRange, fake);
    ReplacedFits(rs, qtype, inRange, fake, 0, SCAN_STEPS);
    ReplacedLists(rs, off, qtype, inRange, fake);
    WholeHere(pre, PrintRecords(rs'), post);
    AnswersAre(w, off, ancount, rs');
    ScanExactly(w, off, ancount, qtype, rs');
    FakedInRange(recs, inRange, fake, qtype);
  }

  lemma AnswersCount(v: seq<Byte>, off: nat, ancount: nat, rs: seq<Record>)
    requires AnswersAt(v, off, ancount, rs)
    ensures |rs| == ancount
  {
  }

  lemma AnswersAre(v: seq<Byte>, off: nat, ancount: nat, rs: seq<Record>)
    requires ValidRecords(rs) && |rs| == ancount && Whole(v, off, PrintRecords(rs))
    ensures AnswersAt(v, off, ancount, rs)
  {
  }

  lemma FitsRight(rs: seq<Record>, qtype: nat, listed: nat, n: int)
    ensures Fits(rs, qtype, listed, n) ==> RightLengths(rs, qtype)
  {
  }

  lemma WholeCut(v: seq<Byte>, off: nat, p: seq<Byte>)
    requires Whole(v, off, p)
    ensures off + |p| <= |v| && v == v[..off] + p + v[off + |p|..]
  {
  }

  lemma WholeHere(pre: seq<Byte>, p: seq<Byte>, post: seq<Byte>)
    ensures Whole(pre + p + post, |pre|, p) && (pre + p + post)[..|pre|] == pre
  {
  }

  lemma FakedInRange(as': seq<Addr>, inRange: seq<Byte> -> bool, fake: seq<Byte>, qtype: nat)
    requires Fake(inRange, fake, qtype)
    ensures forall i :: 0 <= i < |as'| ==>
              var b := FakedAll(as', inRange, fake)[i]; b.off == as'[i].off && b.ttl == as'[i].ttl && inRange(b.ip)
  {
  }

  // ... and its question is the same.
  lemma RewriteKeepsQuestion(v: seq<Byte>, w: seq<Byte>)
    requires ParseQuestion(v).status == Ok && |w| == |v| && ParseQuestion(v).answersOff <= |v|
    requires w[..ParseQuestion(v).answersOff] == v[..ParseQuestion(v).answersOff]
    ensures var q, q' := ParseQuestion(v), ParseQuestion(w);
            q'.status == Ok && q'.qname == q.qname && q'.qtype == q.qtype && q'.ancount == q.ancount && q'.answersOff == q.answersOff
  {
    hide *;
    var ls := QuestionOf(v);
    NamedIsPrinted(v, ls);
    SameStart(v, w, ls);
    QuestionIsRead(w, ls);
  }

  lemma NamedIsPrinted(v: seq<Byte>, ls: seq<seq<Byte>>)
    requires QuestionNamed(v, ls)
    ensures ValidLabels(ls) && 12 + |PrintLabels(ls)| + 5 <= |v|
  {
  }

  lemma SameStart(v: seq<Byte>, w: seq<Byte>, ls: seq<seq<Byte>>)
    requires IsAnswer(v) && QuestionNamed(v, ls) && |w| == |v|
    requires var end := 12 + |PrintLabels(ls)| + 1; w[..end + 4] == v[..end + 4]
    ensures IsAnswer(w) && QuestionNamed(w, ls) && Rd16(w, 6) == Rd16(v, 6)
    ensures var end := 12 + |PrintLabels(ls)| + 1; Rd16(w, end) == Rd16(v, end)
  {
    var end := 12 + |PrintLabels(ls)| + 1;
    hide PrintLabels, Joined, HostLabels, ValidLabels;
    forall i | 0 <= i < end + 4 ensures w[i] == v[i] {
      assert w[i] == w[..end + 4][i] && v[i] == v[..end + 4][i];
    }
    assert w[12..end] == v[12..end];
  }

  // The answer section starts inside the message.
  lemma AnswersInside(v: seq<Byte>)
    requires ParseQuestion(v).status == Ok
    ensures ParseQuestion(v).answersOff <= |v|
  {
    hide *;
    var ls := QuestionOf(v);
    NamedIsPrinted(v, ls);
  }
}
