/** The DNS program's walks as they update their structs, and the rewrite of one message. */
module DnsProgram {
  import opened Options
  import opened Wire
  import opened DnsWire
  import opened DnsWalk
  import opened DnsRewrite
  import opened DnsChecksum

  // struct dns_question
  class QuestionWalk {
    var status: Scan
    var qname: seq<Byte>
    var qtype: nat
    var ancount: nat
    var answersOff: nat
    var off: nat
    var labelRem: nat

    function Value(): (r: Question)
      reads this
    {
      Question(status, qname, qtype, ancount, answersOff, off, labelRem)
    }

    // dns_question_begin, on the zeroed struct.
    constructor (msg: array<Byte>, len: nat)
      requires len <= msg.Length && len <= MAX_DNS_PKT
      ensures Value() == QBegin(msg[..len])
    {
      status, qname, qtype, ancount, answersOff, off, labelRem := NotAnswer, [], 0, 0, 0, 0, 0;
      new;
      if len < 12 {
        return;
      }
      if msg[2] / 8 != 0x10 || msg[2] / 2 % 2 != 0 || msg[3] % 16 != 0 {
        return;
      }
      if Rd16(msg[..len], 4) != 1 {
        return;
      }
      ancount := Rd16(msg[..len], 6);
      if ancount == 0 {
        return;
      }
      off := 12;
      status := Running;
    }

    // dns_question_step
    method Step(msg: array<Byte>, len: nat) returns (over: bool)
      requires len <= msg.Length && len <= MAX_DNS_PKT
      modifies this
      ensures Value() == QStep(msg[..len], old(Value())) && (over <==> status != Running)
    {
      if status != Running {
        return true;
      }
      var at, n := off, |qname|;
      if at >= len || at >= MAX_DNS_PKT {
        status := NotAnswer;
        return true;
      }
      var c: Byte := msg[at];
      off := at + 1;
      if labelRem == 0 {
        if c == 0 {
          if n == 0 {
            status := BadName;
          } else if at + 1 + 4 > len {
            status := NotAnswer;
          } else {
            qtype := Rd16(msg[..len], at + 1);
            answersOff := at + 1 + 4;
            status := Ok;
          }
          return true;
        }
        if c > 63 {
          status := BadName;
          return true;
        }
        if n > 0 {
          if n >= MAX_HOST {
            status := BadName;
            return true;
          }
          qname := qname + [0x2e];
        }
        labelRem := c;
        return false;
      }
      c := Lower(c);
      if c == 0x2e || !HostByte(c) || n >= MAX_HOST {
        status := BadName;
        return true;
      }
      qname := qname + [c];
      labelRem := labelRem - 1;
      return false;
    }
  }

  lemma {:induction false} QRunStep(v: seq<Byte>, q: Question, n: nat)
    ensures QRun(v, q, n + 1) == QStep(v, QRun(v, q, n))
    decreases n
  {
    hide QStep;
    if n > 0 {
      QRunStep(v, QStep(v, q), n - 1);
    }
  }

  // dns_parse_question
  method DnsParseQuestion(msg: array<Byte>, length: nat) returns (q: QuestionWalk)
    requires length <= msg.Length
    ensures fresh(q) && q.Value() == ParseQuestion(msg[..if length > MAX_DNS_PKT then MAX_DNS_PKT else length])
  {
    hide QStep, QBegin;
    var len := if length > MAX_DNS_PKT then MAX_DNS_PKT else length;
    q := new QuestionWalk(msg, len);
    ghost var v := msg[..len];
    var i := 0;
    while i < QNAME_STEPS
      invariant 0 <= i <= QNAME_STEPS && fresh(q) && q.Value() == QRun(v, QBegin(v), i)
    {
      QRunStep(v, QBegin(v), i);
      var over := q.Step(msg, len);
      i := i + 1;
      if over {
        QStays(v, QBegin(v), i, QNAME_STEPS);
        break;
      }
    }
    if q.status == Running {
      q.status := BadName;
    }
  }

  lemma {:induction false} QStays(v: seq<Byte>, q: Question, n: nat, m: nat)
    requires n <= m && QRun(v, q, n).status != Running
    ensures QRun(v, q, m) == QRun(v, q, n)
    decreases m - n
  {
    hide QRun;
    if n < m {
      QStays(v, q, n, m - 1);
      QRunStep(v, q, m - 1);
    }
  }

  // struct dns_answers, for records of type rrType.
  class AnswersWalk {
    var recs: seq<Addr>
    var status: Scan
    var off: nat
    var done: nat
    var inName: bool
    const ancount: nat
    const rrType: nat
    const rrLen: nat

    function Value(): (r: Answer)
      reads this
    {
      Answer(status, recs, off, done, inName)
    }

    // dns_answers_begin
    constructor (off: nat, ancount: nat, qtype: nat)
      ensures Value() == ABegin(off) && this.ancount == ancount && rrType == qtype && rrLen == AddrLen(qtype)
    {
      rrType, rrLen, this.ancount := qtype, AddrLen(qtype), ancount;
      recs, status, this.off, done, inName := [], Running, off, 0, true;
    }

    // dns_answers_step
    method Step(msg: array<Byte>, len: nat) returns (over: bool)
      requires len <= msg.Length && len <= MAX_DNS_PKT && rrLen == AddrLen(rrType)
      modifies this
      ensures Value() == AStep(msg[..len], ancount, rrType, old(Value())) && (over <==> status != Running)
    {
      hide Rd16;
      if status != Running {
        return true;
      }
      if done >= ancount {
        status := Ok;
        return true;
      }
      var at := off;
      if inName {
        if at >= len || at >= MAX_DNS_PKT {
          status := Incomplete;
          return true;
        }
        var b: nat := msg[at];
        if b == 0 {
          off := at + 1;
          inName := false;
        } else if b >= 0xC0 {
          off := at + 2;
          inName := false;
        } else if b >= 0x40 {
          status := Malformed;
          return true;
        } else {
          off := at + 1 + b;
        }
        return false;
      }
      if at + 10 > len || at >= MAX_DNS_PKT {
        status := Incomplete;
        return true;
      }
      var v := msg[..len];
      var typ, cls := Rd16(v, at), Rd16(v, at + 2);
      var ttl := Rd16(v, at + 4) * 0x1_0000 + Rd16(v, at + 6);
      var rdlen := Rd16(v, at + 8);
      at := at + 10;
      if at + rdlen > len {
        status := Incomplete;
        return true;
      }
      if rrLen != 0 && typ == rrType && cls == CLASS_IN {
        if rdlen != rrLen {
          status := Malformed;
          return true;
        }
        if |recs| >= MAX_ADDR_RECORDS {
          status := Incomplete;
          return true;
        }
        recs := recs + [Addr(at, ttl, v[at..at + rdlen])];
      }
      off := at + rdlen;
      done := done + 1;
      inName := true;
      return false;
    }
  }

  lemma {:induction false} ARunNext(v: seq<Byte>, ancount: nat, qtype: nat, a: Answer, n: nat)
    ensures ARun(v, ancount, qtype, a, n + 1) == AStep(v, ancount, qtype, ARun(v, ancount, qtype, a, n))
    decreases n
  {
    hide AStep;
    if n > 0 {
      ARunNext(v, ancount, qtype, AStep(v, ancount, qtype, a), n - 1);
    }
  }

  lemma {:induction false} AStays(v: seq<Byte>, ancount: nat, qtype: nat, a: Answer, n: nat, m: nat)
    requires n <= m && ARun(v, ancount, qtype, a, n).status != Running
    ensures ARun(v, ancount, qtype, a, m) == ARun(v, ancount, qtype, a, n)
    decreases m - n
  {
    hide ARun;
    if n < m {
      AStays(v, ancount, qtype, a, n, m - 1);
      ARunNext(v, ancount, qtype, a, m - 1);
    }
  }

  // dns_scan_addr_records
  method DnsScanAddrRecords(msg: array<Byte>, length: nat, off: nat, ancount: nat, qtype: nat) returns (a: AnswersWalk)
    requires length <= msg.Length
    ensures fresh(a)
    ensures a.Value() == ScanAddrRecords(msg[..if length > MAX_DNS_PKT then MAX_DNS_PKT else length], off, ancount, qtype)
  {
    hide AStep, AddrLen;
    var len := if length > MAX_DNS_PKT then MAX_DNS_PKT else length;
    a := new AnswersWalk(off, ancount, qtype);
    ghost var v := msg[..len];
    var i := 0;
    while i < SCAN_STEPS
      invariant 0 <= i <= SCAN_STEPS && fresh(a) && a.Value() == ARun(v, ancount, qtype, ABegin(off), i)
      invariant a.ancount == ancount && a.rrType == qtype && a.rrLen == AddrLen(qtype)
    {
      ARunNext(v, ancount, qtype, ABegin(off), i);
      var over := a.Step(msg, len);
      i := i + 1;
      if over {
        AStays(v, ancount, qtype, ABegin(off), i, SCAN_STEPS);
        break;
      }
    }
    if a.status == Running {
      a.status := if a.done >= ancount then Ok else Incomplete;
    }
  }

  // ---- One message ----

  // The listed addresses of a scan are in the message, apart from each other.
  lemma ScanListsThere(v: seq<Byte>, off: nat, ancount: nat, qtype: nat)
    requires off <= |v| && ScanAddrRecords(v, off, ancount, qtype).status == Ok
    ensures var recs := ScanAddrRecords(v, off, ancount, qtype).recs;
            Spread(recs, off, |v|, AddrLen(qtype)) && There(v, recs) && Inside(recs, AddrLen(qtype), |v|)
  {
    hide *;
    var rs := ScanIsOfRecords(v, off, ancount, qtype);
    ScanExactly(v, off, ancount, qtype, rs);
    AnswersThere(v, off, ancount, rs);
    FitsRight(rs, qtype, 0, SCAN_STEPS);
    ListingDisjoint(rs, off, qtype);
    WholeCut(v, off, PrintRecords(rs));
    SpreadUpTo(Listing(rs, off, qtype), off, off + |PrintRecords(rs)|, |v|, AddrLen(qtype));
    SpreadInside(Listing(rs, off, qtype), off, |v|, AddrLen(qtype), |v|);
    ListingThere(v, off, rs, qtype);
  }

  lemma SpreadUpTo(as': seq<Addr>, off: nat, end: nat, end': nat, len: nat)
    requires Spread(as', off, end, len) && end <= end'
    ensures Spread(as', off, end', len)
  {
  }

  lemma {:induction false} ListingThere(v: seq<Byte>, off: nat, rs: seq<Record>, qtype: nat)
    requires ValidRecords(rs) && Whole(v, off, PrintRecords(rs))
    ensures There(v, Listing(rs, off, qtype))
    decreases |rs|
  {
    hide *;
    if rs == [] {
      NothingThere(v, off, qtype);
    } else {
      FirstThere(v, off, rs, qtype);
      ListedFirst(rs, off, qtype);
      var r := rs[0];
      var at := off + |PrintName(r.owner)|;
      WholeSplit(v, off, PrintName(r.owner), PrintBody(r) + PrintRecords(rs[1..]));
      FieldsRead(v, at, r, PrintRecords(rs[1..]));
      ListingThere(v, at + 10 + |r.rdata|, rs[1..], qtype);
      HereThere(v, r, at + 10, Listing(rs[1..], at + 10 + |r.rdata|, qtype), qtype);
    }
  }

  lemma NothingThere(v: seq<Byte>, off: nat, qtype: nat)
    ensures There(v, Listing([], off, qtype))
  {
  }

  lemma HereThere(v: seq<Byte>, r: Record, at: nat, rest: seq<Addr>, qtype: nat)
    requires There(v, rest) && at + |r.rdata| <= |v| && v[at..at + |r.rdata|] == r.rdata
    ensures There(v, Here(r, at, qtype) + rest)
  {
  }

  // What tc_dns_rewrite makes of a message: fakeOf gives the fake address for a question, if the host has one
  // in range and the pod may have it.
  function RewriteOf(v: seq<Byte>, inRange: seq<Byte> -> bool, fakeOf: (seq<Byte>, bool) -> Option<seq<Byte>>): (r: Option<seq<Addr>>) {
    var q := ParseQuestion(v);
    if q.status != Ok || AddrLen(q.qtype) == 0 || fakeOf(q.qname, q.qtype == TYPE_AAAA).None? then None else
    var a := ScanAddrRecords(v, q.answersOff, q.ancount, q.qtype);
    if a.status != Ok || (forall i :: 0 <= i < |a.recs| ==> inRange(a.recs[i].ip)) then None else Some(a.recs)
  }

  // ---- Which messages are rewritten ----

  // A letter of either case, a digit, "-" or "_".
  predicate NameChar(c: Byte) {
    var ch := c as char;
    'a' <= ch <= 'z' || 'A' <= ch <= 'Z' || '0' <= ch <= '9' || ch == '-' || ch == '_'
  }

  // The message is an untruncated NOERROR response to one standard query for a name with these labels, with answers.
  predicate Responds(v: seq<Byte>, ls: seq<seq<Byte>>) {
    && |v| >= 12 && 128 <= v[2] < 136 && v[2] / 2 % 2 == 0 && v[3] % 16 == 0 && Rd16(v, 4) == 1 && Rd16(v, 6) != 0
    && ls != [] && (forall i :: 0 <= i < |ls| ==> 1 <= |ls[i]| <= 63)
    && (forall i, j :: 0 <= i < |ls| && 0 <= j < |ls[i]| ==> NameChar(ls[i][j]))
    && |Joined([], ls)| <= 63 && Whole(v, 12, PrintLabels(ls) + [0]) && 12 + |PrintLabels(ls)| + 5 <= |v|
  }

  // An IN record of the type asked for.
  predicate Asked(r: Record, qtype: nat) {
    r.typ == qtype && r.cls == 1
  }

  // Its answer section is these records: at most 8 of them answer, each with an address of the right length, and their
  // names and records are few enough to walk.
  predicate AnsweredBy(v: seq<Byte>, off: nat, qtype: nat, rs: seq<Record>) {
    && |v| >= 12 && |rs| == Rd16(v, 6) && ValidRecords(rs) && Whole(v, off, PrintRecords(rs))
    && (forall i :: 0 <= i < |rs| && Asked(rs[i], qtype) ==> |rs[i].rdata| == if qtype == 1 then 4 else 16)
    && |set i | 0 <= i < |rs| && Asked(rs[i], qtype)| <= 8 && Steps(rs) <= 64
  }

  // It is rewritten: an A or AAAA question for a host with a fake address, answered as above, and with an address that
  // is not fake yet.
  ghost predicate Rewritable(v: seq<Byte>, ls: seq<seq<Byte>>, rs: seq<Record>, inRange: seq<Byte> -> bool,
                             fakeOf: (seq<Byte>, bool) -> Option<seq<Byte>>) {
    && Responds(v, ls)
    && var end := 12 + |PrintLabels(ls)| + 1; var qtype := Rd16(v, end);
       && (qtype == 1 || qtype == 28) && fakeOf(Joined([], ls), qtype == 28).Some?
       && AnsweredBy(v, end + 4, qtype, rs)
       && exists i :: 0 <= i < |rs| && Asked(rs[i], qtype) && !inRange(rs[i].rdata)
  }

  lemma RespondsMeans(v: seq<Byte>, ls: seq<seq<Byte>>)
    ensures Responds(v, ls) <==> IsAnswer(v) && QuestionNamed(v, ls)
  {
    hide PrintLabels, Joined, Whole;
    forall c: Byte ensures LabelByte(c) <==> NameChar(c) {
    }
    hide LabelByte, NameChar;
  }

  lemma {:induction false} CountLast(rs: seq<Record>, qtype: nat)
    requires (qtype == 1 || qtype == 28) && rs != []
    ensures var n := |rs| - 1; CountOf(rs, qtype) == CountOf(rs[..n], qtype) + if Asked(rs[n], qtype) then 1 else 0
  {
    var n := |rs| - 1;
    if n > 0 {
      CountLast(rs[1..], qtype);
      assert rs[1..][..n - 1] == rs[..n][1..];
    }
  }

  lemma {:induction false} CountMeans(rs: seq<Record>, qtype: nat)
    requires qtype == 1 || qtype == 28
    ensures CountOf(rs, qtype) == |set i | 0 <= i < |rs| && Asked(rs[i], qtype)|
  {
    if rs != [] {
      var n := |rs| - 1;
      CountMeans(rs[..n], qtype);
      CountLast(rs, qtype);
      var s := set i | 0 <= i < |rs| && Asked(rs[i], qtype);
      var t := set i | 0 <= i < |rs[..n]| && Asked(rs[..n][i], qtype);
      assert s == if Asked(rs[n], qtype) then t + {n} else t;
    }
  }

  // A message is rewritten if and only if it is such a response.
  lemma RewrittenExactly(v: seq<Byte>, inRange: seq<Byte> -> bool, fakeOf: (seq<Byte>, bool) -> Option<seq<Byte>>)
    ensures RewriteOf(v, inRange, fakeOf).Some? <==> exists ls, rs :: Rewritable(v, ls, rs, inRange, fakeOf)
  {
    hide Rewritable, RewriteOf;
    if RewriteOf(v, inRange, fakeOf).Some? {
      var ls, rs := RewrittenIsRewritable(v, inRange, fakeOf);
    }
    forall ls, rs | Rewritable(v, ls, rs, inRange, fakeOf) ensures RewriteOf(v, inRange, fakeOf).Some? {
      RewritableIsRewritten(v, ls, rs, inRange, fakeOf);
    }
  }

  lemma AskedMeans(r: Record, qtype: nat)
    requires qtype == 1 || qtype == 28
    ensures Asked(r, qtype) <==> Answers(r, qtype)
  {
  }

  // What the answers are to the scan.
  lemma AnsweredMeans(v: seq<Byte>, off: nat, qtype: nat, rs: seq<Record>)
    requires |v| >= 12 && (qtype == 1 || qtype == 28)
    ensures AnsweredBy(v, off, qtype, rs) <==> AnswersAt(v, off, Rd16(v, 6), rs) && Fits(rs, qtype, 0, SCAN_STEPS)
  {
    hide PrintRecords, ValidRecords, Whole, Steps, CountOf;
    CountMeans(rs, qtype);
    forall i | 0 <= i < |rs| ensures Asked(rs[i], qtype) <==> Answers(rs[i], qtype) {
      AskedMeans(rs[i], qtype);
    }
    hide Asked, Answers;
  }

  // Whether some listed address is not fake.
  lemma {:induction false} SomeListed(rs: seq<Record>, off: nat, qtype: nat, inRange: seq<Byte> -> bool)
    requires ValidRecords(rs) && (qtype == 1 || qtype == 28)
    ensures (exists i :: 0 <= i < |rs| && Asked(rs[i], qtype) && !inRange(rs[i].rdata)) <==>
            !(forall i :: 0 <= i < |Listing(rs, off, qtype)| ==> inRange(Listing(rs, off, qtype)[i].ip))
    decreases |rs|
  {
    hide *;
    if rs == [] {
      NoneListed(off, qtype);
    } else {
      RestOfRecords(rs, qtype);
      ListedFirst(rs, off, qtype);
      AskedMeans(rs[0], qtype);
      var at := off + |PrintName(rs[0].owner)| + 10;
      var next := at + |rs[0].rdata|;
      SomeListed(rs[1..], next, qtype, inRange);
      ListedSplit(rs, at, Listing(rs[1..], next, qtype), qtype, inRange);
    }
  }

  lemma NoneListed(off: nat, qtype: nat)
    ensures Listing([], off, qtype) == []
  {
  }

  lemma ListedSplit(rs: seq<Record>, at: nat, rest: seq<Addr>, qtype: nat, inRange: seq<Byte> -> bool)
    requires rs != [] && (Asked(rs[0], qtype) <==> Answers(rs[0], qtype))
    ensures var all := Here(rs[0], at, qtype) + rest;
            (forall i :: 0 <= i < |all| ==> inRange(all[i].ip)) <==>
              (Answers(rs[0], qtype) ==> inRange(rs[0].rdata)) && forall i :: 0 <= i < |rest| ==> inRange(rest[i].ip)
    ensures (exists i :: 0 <= i < |rs| && Asked(rs[i], qtype) && !inRange(rs[i].rdata)) <==>
              (Asked(rs[0], qtype) && !inRange(rs[0].rdata))
              || exists i :: 0 <= i < |rs[1..]| && Asked(rs[1..][i], qtype) && !inRange(rs[1..][i].rdata)
  {
    hide Answers, Asked;
    var here := Here(rs[0], at, qtype);
    var all := here + rest;
    forall i | 0 <= i < |rest| ensures rest[i] == all[|here| + i] {
    }
    if Answers(rs[0], qtype) {
      assert all[0].ip == rs[0].rdata;
    }
    if (Answers(rs[0], qtype) ==> inRange(rs[0].rdata)) && forall i :: 0 <= i < |rest| ==> inRange(rest[i].ip) {
      forall i | 0 <= i < |all| ensures inRange(all[i].ip) {
        assert i >= |here| ==> all[i] == rest[i - |here|];
      }
    }
    forall i | 1 <= i < |rs| ensures rs[i] == rs[1..][i - 1] {
    }
  }

  lemma RewritableIsRewritten(v: seq<Byte>, ls: seq<seq<Byte>>, rs: seq<Record>, inRange: seq<Byte> -> bool,
                              fakeOf: (seq<Byte>, bool) -> Option<seq<Byte>>)
    requires Rewritable(v, ls, rs, inRange, fakeOf)
    ensures RewriteOf(v, inRange, fakeOf).Some?
    ensures RewriteOf(v, inRange, fakeOf).value == Listing(rs, 12 + |PrintLabels(ls)| + 5, Rd16(v, 12 + |PrintLabels(ls)| + 1))
    ensures ParseQuestion(v).qname == Joined([], ls) && ParseQuestion(v).qtype == Rd16(v, 12 + |PrintLabels(ls)| + 1)
  {
    hide ParseQuestion, ScanAddrRecords, AnsweredBy, Responds, Listing, Asked, PrintLabels, Joined;
    RespondsMeans(v, ls);
    QuestionIsRead(v, ls);
    var end := 12 + |PrintLabels(ls)| + 1;
    var qtype := Rd16(v, end);
    AnsweredMeans(v, end + 4, qtype, rs);
    ScanExactly(v, end + 4, Rd16(v, 6), qtype, rs);
    AnswersThere(v, end + 4, Rd16(v, 6), rs);
    SomeListed(rs, end + 4, qtype, inRange);
  }

  lemma RewrittenIsRewritable(v: seq<Byte>, inRange: seq<Byte> -> bool, fakeOf: (seq<Byte>, bool) -> Option<seq<Byte>>)
    returns (ls: seq<seq<Byte>>, rs: seq<Record>)
    requires RewriteOf(v, inRange, fakeOf).Some?
    ensures Rewritable(v, ls, rs, inRange, fakeOf)
  {
    hide ParseQuestion, ScanAddrRecords, AnsweredBy, Responds, Listing, Asked, PrintLabels, Joined;
    ls := QuestionOf(v);
    RespondsMeans(v, ls);
    var end := 12 + |PrintLabels(ls)| + 1;
    var qtype := Rd16(v, end);
    AnswersInside(v);
    rs := ScanIsOfRecords(v, end + 4, Rd16(v, 6), qtype);
    ScanExactly(v, end + 4, Rd16(v, 6), qtype, rs);
    AnsweredMeans(v, end + 4, qtype, rs);
    AnswersThere(v, end + 4, Rd16(v, 6), rs);
    SomeListed(rs, end + 4, qtype, inRange);
  }

  // And then it is the same message with every answering address that was not fake replaced.
  lemma RewrittenIs(v: seq<Byte>, ls: seq<seq<Byte>>, rs: seq<Record>, inRange: seq<Byte> -> bool,
                    fakeOf: (seq<Byte>, bool) -> Option<seq<Byte>>) returns (rs': seq<Record>)
    requires Rewritable(v, ls, rs, inRange, fakeOf)
    requires forall n, six :: fakeOf(n, six).Some? ==> |fakeOf(n, six).value| == (if six then 16 else 4) && inRange(fakeOf(n, six).value)
    ensures RewriteOf(v, inRange, fakeOf).Some?
    ensures var off, qtype := 12 + |PrintLabels(ls)| + 5, Rd16(v, 12 + |PrintLabels(ls)| + 1);
            var recs, fake := RewriteOf(v, inRange, fakeOf).value, fakeOf(Joined([], ls), qtype == 28).value;
            && |rs'| == |rs| && ValidRecords(rs') && Inside(recs, |fake|, |v|)
            && (forall i :: 0 <= i < |rs| ==>
                  rs'[i] == if Asked(rs[i], qtype) && !inRange(rs[i].rdata) then rs[i].(rdata := fake) else rs[i])
            && off + |PrintRecords(rs)| <= |v|
            && Rewritten(v, recs, inRange, fake) == v[..off] + PrintRecords(rs') + v[off + |PrintRecords(rs)|..]
  {
    RewritableIsRewritten(v, ls, rs, inRange, fakeOf);
    RespondsMeans(v, ls);
    var off, qtype := 12 + |PrintLabels(ls)| + 5, Rd16(v, 12 + |PrintLabels(ls)| + 1);
    var fake := fakeOf(Joined([], ls), qtype == 28).value;
    AnsweredMeans(v, off, qtype, rs);
    AnswersThere(v, off, Rd16(v, 6), rs);
    FitsRight(rs, qtype, 0, SCAN_STEPS);
    assert Fake(inRange, fake, qtype);
    hide *;
    rs' := ReplacedAll(rs, qtype, inRange, fake);
    WholeCut(v, off, PrintRecords(rs));
    RewrittenPrints(v[..off], rs, v[off + |PrintRecords(rs)|..], qtype, inRange, fake);
    ReplacedEach(rs, qtype, inRange, fake);
  }

  lemma {:induction false} ReplacedEach(rs: seq<Record>, qtype: nat, inRange: seq<Byte> -> bool, fake: seq<Byte>)
    requires qtype == 1 || qtype == 28
    ensures var rs' := ReplacedAll(rs, qtype, inRange, fake);
            forall i :: 0 <= i < |rs| ==>
              rs'[i] == if Asked(rs[i], qtype) && !inRange(rs[i].rdata) then rs[i].(rdata := fake) else rs[i]
  {
    if rs != [] {
      ReplacedEach(rs[1..], qtype, inRange, fake);
      var rs' := ReplacedAll(rs, qtype, inRange, fake);
      assert rs' == [Replaced(rs[0], qtype, inRange, fake)] + ReplacedAll(rs[1..], qtype, inRange, fake);
      AskedMeans(rs[0], qtype);
      forall i | 1 <= i < |rs|
        ensures rs'[i] == if Asked(rs[i], qtype) && !inRange(rs[i].rdata) then rs[i].(rdata := fake) else rs[i]
      {
        assert rs[i] == rs[1..][i - 1] && rs'[i] == ReplacedAll(rs[1..], qtype, inRange, fake)[i - 1];
      }
    }
  }

  // Is there an address to record, one that is not fake already?
  method AnyReal(recs: seq<Addr>, inRange: seq<Byte> -> bool) returns (recorded: bool)
    ensures recorded <==> !(forall i :: 0 <= i < |recs| ==> inRange(recs[i].ip))
  {
    recorded := false;
    for i := 0 to |recs|
      invariant recorded <==> exists j :: 0 <= j < i && !inRange(recs[j].ip)
    {
      if !inRange(recs[i].ip) {
        recorded := true;
      }
    }
  }

  // tc_dns_rewrite, on the message: left alone, or with every listed address made fake. A checksum that was
  // right is right afterwards.
  method TcDnsRewrite(msg: array<Byte>, check: nat, hasCsum: bool, inRange: seq<Byte> -> bool,
                      fakeOf: (seq<Byte>, bool) -> Option<seq<Byte>>) returns (c: nat, ghost question: Question)
    requires 12 <= msg.Length <= MAX_DNS_PKT
    requires forall n, six :: fakeOf(n, six).Some? ==> |fakeOf(n, six).value| == (if six then 16 else 4) && inRange(fakeOf(n, six).value)
    modifies msg
    ensures question == ParseQuestion(old(msg[..]))
    ensures RewriteOf(old(msg[..]), inRange, fakeOf).Some? <==> exists ls, rs :: Rewritable(old(msg[..]), ls, rs, inRange, fakeOf)
    ensures RewriteOf(old(msg[..]), inRange, fakeOf).None? ==> msg[..] == old(msg[..]) && c == check
    ensures RewriteOf(old(msg[..]), inRange, fakeOf).Some? ==>
              var fake, recs := fakeOf(question.qname, question.qtype == TYPE_AAAA).value, RewriteOf(old(msg[..]), inRange, fakeOf).value;
              && Inside(recs, |fake|, |old(msg[..])|) && msg[..] == Rewritten(old(msg[..]), recs, inRange, fake)
              && (hasCsum ==> Same(c + Sum(msg[..], false), check + Sum(old(msg[..]), false)))
  {
    hide ParseQuestion, ScanAddrRecords, Sum, Same, Spread, There, Inside, Rewritten, Rewritable;
    c := check;
    ghost var v := msg[..];
    RewrittenExactly(v, inRange, fakeOf);
    assert msg[..msg.Length] == v;
    var q := DnsParseQuestion(msg, msg.Length);
    question := q.Value();
    if q.status != Ok {
      return;
    }
    var six := q.qtype == TYPE_AAAA;
    if !six && q.qtype != TYPE_A {
      return;
    }
    var fake := fakeOf(q.qname, six);
    if fake.None? {
      return;
    }
    var a := DnsScanAddrRecords(msg, msg.Length, q.answersOff, q.ancount, q.qtype);
    assert a.Value() == ScanAddrRecords(v, q.answersOff, q.ancount, q.qtype);
    if a.status != Ok {
      return;
    }
    var recorded := AnyReal(a.recs, inRange);
    if !recorded {
      return;
    }
    AnswersInside(v);
    ScanListsThere(v, q.answersOff, q.ancount, q.qtype);
    c := RewriteAnswer(msg, a.recs, q.answersOff, |v|, check, hasCsum, inRange, fake.value);
  }

  // A message that was rewritten reads as before: the same question, the same records at the same places with
  // the same TTLs, and only fake addresses; so rewriting it again leaves it alone.
  lemma RewrittenReadsAsBefore(v: seq<Byte>, inRange: seq<Byte> -> bool, fakeOf: (seq<Byte>, bool) -> Option<seq<Byte>>)
    requires forall n, six :: fakeOf(n, six).Some? ==> |fakeOf(n, six).value| == (if six then 16 else 4) && inRange(fakeOf(n, six).value)
    requires RewriteOf(v, inRange, fakeOf).Some?
    ensures var q, recs := ParseQuestion(v), RewriteOf(v, inRange, fakeOf).value;
            var fake := fakeOf(q.qname, q.qtype == TYPE_AAAA).value;
            && Inside(recs, |fake|, |v|)
            && var w := Rewritten(v, recs, inRange, fake); var q' := ParseQuestion(w);
               && q'.status == Ok && q'.qname == q.qname && q'.qtype == q.qtype && q'.answersOff == q.answersOff && q'.ancount == q.ancount
               && RewriteOf(w, inRange, fakeOf).None?
               && var again := ScanAddrRecords(w, q.answersOff, q.ancount, q.qtype);
                  && again.status == Ok && |again.recs| == |recs|
                  && forall i :: 0 <= i < |recs| ==> again.recs[i].off == recs[i].off && again.recs[i].ttl == recs[i].ttl
                                                     && inRange(again.recs[i].ip)
  {
    hide ParseQuestion, ScanAddrRecords, Rewritten;
    var q, recs := ParseQuestion(v), RewriteOf(v, inRange, fakeOf).value;
    var fake := fakeOf(q.qname, q.qtype == TYPE_AAAA).value;
    AnswersInside(v);
    RewriteScansAgain(v, q.answersOff, q.ancount, q.qtype, inRange, fake);
    RewriteKeepsQuestion(v, Rewritten(v, recs, inRange, fake));
  }
}
