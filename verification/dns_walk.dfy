/** The walks over a DNS answer: the question's name byte by byte, the records label by label. Both run over v,
    the message's first 512 bytes. */
module DnsWalk {
  import opened Options
  import opened Wire
  import opened DnsWire

  const MAX_DNS_PKT := 512
  const MAX_HOST := MAX_HOST_LEN - 1
  const QNAME_STEPS := 65
  const SCAN_STEPS := 64

  datatype Scan = Running | Ok | NotAnswer | BadName | Incomplete | Malformed

  // ---- The question ----

  datatype Question = Question(status: Scan, qname: seq<Byte>, qtype: nat, ancount: nat, answersOff: nat, off: nat, rem: nat)

  // An untruncated NOERROR response to one standard query, with an answer.
  predicate IsAnswer(v: seq<Byte>) {
    && |v| >= 12 && v[2] / 8 == 0x10 && v[2] / 2 % 2 == 0 && v[3] % 16 == 0
    && Rd16(v, 4) == 1 && Rd16(v, 6) != 0
  }

  function QBegin(v: seq<Byte>): (r: Question) {
    if IsAnswer(v) then Question(Running, [], 0, Rd16(v, 6), 0, 12, 0)
    else Question(NotAnswer, [], 0, 0, 0, 0, 0)
  }

  function QStep(v: seq<Byte>, q: Question): (r: Question) {
    if q.status != Running then q
    else if q.off >= |v| then q.(status := NotAnswer)
    else
      var c, q' := v[q.off], q.(off := q.off + 1);
      if q.rem == 0 then
        if c == 0 then
          if q.qname == [] then q'.(status := BadName)
          else if q.off + 1 + 4 > |v| then q'.(status := NotAnswer)
          else q'.(status := Ok, qtype := Rd16(v, q.off + 1), answersOff := q.off + 1 + 4)
        else if c > 63 then q'.(status := BadName)
        else if q.qname != [] && |q.qname| >= MAX_HOST then q'.(status := BadName)
        else q'.(qname := if q.qname == [] then [] else q.qname + [0x2e], rem := c)
      else if !LabelByte(c) || |q.qname| >= MAX_HOST then q'.(status := BadName)
      else q'.(qname := q.qname + [Lower(c)], rem := q.rem - 1)
  }

  function QRun(v: seq<Byte>, q: Question, n: nat): (r: Question)
    decreases n
  {
    if n == 0 then q else QRun(v, QStep(v, q), n - 1)
  }

  function QEnd(q: Question): (r: Question) {
    if q.status == Running then q.(status := BadName) else q
  }

  // dns_parse_question
  function ParseQuestion(v: seq<Byte>): (r: Question) {
    QEnd(QRun(v, QBegin(v), QNAME_STEPS))
  }

  // The question's name has these labels, and is one a host can have.
  predicate QuestionNamed(v: seq<Byte>, ls: seq<seq<Byte>>) {
    && ls != [] && ValidLabels(ls) && HostLabels(ls) && |Joined([], ls)| <= MAX_HOST
    && Whole(v, 12, PrintLabels(ls) + [0]) && 12 + |PrintLabels(ls)| + 1 + 4 <= |v|
  }

  lemma {:induction false} QDone(v: seq<Byte>, q: Question, n: nat)
    requires q.status != Running
    ensures QRun(v, q, n) == q
  {
    if n > 0 {
      QDone(v, q, n - 1);
    }
  }

  // What is left of a name: the rest of the current label, then labels.
  predicate NameLeft(v: seq<Byte>, q: Question, part: seq<Byte>, ls: seq<seq<Byte>>) {
    && q.status == Running && q.rem == |part| <= 63 && ValidLabels(ls) && Whole(v, q.off, part + (PrintLabels(ls) + [0]))
    && (forall i :: 0 <= i < |part| ==> LabelByte(part[i])) && HostLabels(ls)
    && |Joined(q.qname + LowerAll(part), ls)| <= MAX_HOST && (q.qname != [] || part != [] || ls != [])
    && q.off + |part| + |PrintLabels(ls)| + 1 + 4 <= |v|
  }

  // The walk of what is left of a name.
  lemma {:induction false} QWalks(v: seq<Byte>, q: Question, part: seq<Byte>, ls: seq<seq<Byte>>, n: nat)
    requires NameLeft(v, q, part, ls) && n >= |part| + |PrintLabels(ls)| + 1
    ensures var end := q.off + |part| + |PrintLabels(ls)| + 1; var r := QRun(v, q, n);
            r.status == Ok && r.qname == Joined(q.qname + LowerAll(part), ls) && r.qtype == Rd16(v, end) && r.answersOff == end + 4
            && r.ancount == q.ancount
    decreases |part| + |PrintLabels(ls)|
  {
    hide NameLeft, QStep, LowerAll;
    if part != [] {
      PartStep(v, q, part, ls);
      QWalks(v, QStep(v, q), part[1..], ls, n - 1);
    } else if ls != [] {
      LabelStep(v, q, ls);
      QWalks(v, QStep(v, q), ls[0], ls[1..], n - 1);
    } else {
      RootStep(v, q);
      QDone(v, QStep(v, q), n - 1);
    }
  }

  lemma RootStep(v: seq<Byte>, q: Question)
    requires NameLeft(v, q, [], [])
    ensures var r := QStep(v, q);
            && q.off + 5 <= |v| && r.status == Ok && r.qname == Joined(q.qname + LowerAll([]), []) && r.qtype == Rd16(v, q.off + 1)
            && r.answersOff == q.off + 1 + 4 && r.ancount == q.ancount
  {
    WholeByte(v, q.off, 0);
    assert [] + (PrintLabels([]) + [0]) == [0];
    assert q.qname + LowerAll([]) == q.qname;
  }

  lemma PartStep(v: seq<Byte>, q: Question, part: seq<Byte>, ls: seq<seq<Byte>>)
    requires NameLeft(v, q, part, ls) && part != []
    ensures var q' := QStep(v, q);
            NameLeft(v, q', part[1..], ls) && q'.off == q.off + 1 && q'.ancount == q.ancount
            && q'.qname + LowerAll(part[1..]) == q.qname + LowerAll(part)
  {
    var rest := PrintLabels(ls) + [0];
    assert part + rest == [part[0]] + (part[1..] + rest);
    WholeSplit(v, q.off, [part[0]], part[1..] + rest);
    WholeByte(v, q.off, part[0]);
    assert LowerAll(part) == [Lower(part[0])] + LowerAll(part[1..]);
    assert q.qname + LowerAll(part) == q.qname + [Lower(part[0])] + LowerAll(part[1..]);
    hide PrintLabels, Whole;
  }

  lemma LabelStep(v: seq<Byte>, q: Question, ls: seq<seq<Byte>>)
    requires NameLeft(v, q, [], ls) && ls != []
    ensures var q' := QStep(v, q);
            NameLeft(v, q', ls[0], ls[1..]) && q'.off == q.off + 1 && q'.ancount == q.ancount
            && Joined(q'.qname + LowerAll(ls[0]), ls[1..]) == Joined(q.qname, ls) && q.qname + LowerAll([]) == q.qname
            && |PrintLabels(ls)| == 1 + |ls[0]| + |PrintLabels(ls[1..])|
  {
    var rest := PrintLabels(ls[1..]) + [0];
    assert ls[0] != [] && 1 <= |ls[0]| <= 63;
    assert [] + (PrintLabels(ls) + [0]) == [|ls[0]|] + (ls[0] + rest);
    WholeSplit(v, q.off, [|ls[0]|], ls[0] + rest);
    WholeByte(v, q.off, |ls[0]|);
    assert q.qname + LowerAll([]) == q.qname;
    assert forall i :: 0 <= i < |ls[1..]| ==> ls[1..][i] == ls[i + 1];
    forall j | 0 <= j < |ls[0]| ensures LabelByte(ls[0][j]) {
    }
    hide PrintLabels, Whole, LabelByte;
  }

  // What a walk that ends well has read.
  lemma {:induction false} QHasRead(v: seq<Byte>, q: Question, n: nat) returns (part: seq<Byte>, ls: seq<seq<Byte>>)
    requires q.status == Running && q.rem <= 63 && QRun(v, q, n).status == Ok && |q.qname| <= MAX_HOST
    ensures |part| == q.rem && NameLeft(v, q, part, ls)
    decreases n
  {
    assert n > 0;
    var q' := QStep(v, q);
    if q'.status != Running {
      QDone(v, q', n - 1);
      part, ls := [], [];
      assert part + (PrintLabels(ls) + [0]) == [0];
      assert q.qname + LowerAll(part) == q.qname;
      WholeByte(v, q.off, 0);
    } else {
      var part', ls' := QHasRead(v, q', n - 1);
      if q.rem > 0 {
        part, ls := [v[q.off]] + part', ls';
        UnreadPart(v, q, part', ls');
      } else {
        part, ls := [], [part'] + ls';
        UnreadLabel(v, q, part', ls');
      }
    }
  }

  lemma UnreadPart(v: seq<Byte>, q: Question, part: seq<Byte>, ls: seq<seq<Byte>>)
    requires q.status == Running && 0 < q.rem <= 63 && QStep(v, q).status == Running && NameLeft(v, QStep(v, q), part, ls)
    ensures NameLeft(v, q, [v[q.off]] + part, ls)
  {
    var c := v[q.off];
    var rest := PrintLabels(ls) + [0];
    WholeByte(v, q.off, c);
    WholeSplit(v, q.off, [c], part + rest);
    assert [c] + part + rest == [c] + (part + rest);
    assert LowerAll([c] + part) == [Lower(c)] + LowerAll(part);
    assert q.qname + LowerAll([c] + part) == q.qname + [Lower(c)] + LowerAll(part);
    hide PrintLabels, Whole, LabelByte, HostLabels;
  }

  lemma UnreadLabel(v: seq<Byte>, q: Question, part: seq<Byte>, ls: seq<seq<Byte>>)
    requires q.status == Running && q.rem == 0 && QStep(v, q).status == Running && NameLeft(v, QStep(v, q), part, ls)
    ensures NameLeft(v, q, [], [part] + ls)
  {
    var all := [part] + ls;
    assert all[0] == part && all[1..] == ls;
    var rest := PrintLabels(ls) + [0];
    WholeByte(v, q.off, |part|);
    WholeSplit(v, q.off, [|part|], part + rest);
    assert [] + (PrintLabels(all) + [0]) == [|part|] + (part + rest);
    assert q.qname + LowerAll([]) == q.qname;
    forall i, j | 0 <= i < |all| && 0 <= j < |all[i]| ensures LabelByte(all[i][j]) {
      assert i > 0 ==> all[i] == ls[i - 1];
    }
    hide Whole, LabelByte, HostLabels;
  }

  // A name of at most 63 bytes takes at most 65 steps.
  lemma {:induction false} JoinedLength(name: seq<Byte>, ls: seq<seq<Byte>>)
    requires ValidLabels(ls)
    ensures |Joined(name, ls)| == |name| + |PrintLabels(ls)| - (if name == [] && ls != [] then 1 else 0)
    decreases |ls|
  {
    if ls != [] {
      JoinedLength((if name == [] then [] else name + [0x2e]) + LowerAll(ls[0]), ls[1..]);
    }
  }

  // The question walk ends well exactly for a response to one query whose name a host can have, and then has
  // read its name, its type and where the answers start.
  lemma QuestionExactly(v: seq<Byte>)
    ensures ParseQuestion(v).status == Ok <==> IsAnswer(v) && exists ls :: QuestionNamed(v, ls)
    ensures forall ls :: IsAnswer(v) && QuestionNamed(v, ls) ==>
              var r, end := ParseQuestion(v), 12 + |PrintLabels(ls)| + 1;
              r.status == Ok && r.qname == Joined([], ls) && r.qtype == Rd16(v, end) && r.answersOff == end + 4 && r.ancount == Rd16(v, 6)
  {
    hide QRun, QStep, PrintLabels, Joined, Whole, ParseQuestion, HostLabels, ValidLabels, IsAnswer;
    if IsAnswer(v) {
      forall ls | QuestionNamed(v, ls)
        ensures var r, end := ParseQuestion(v), 12 + |PrintLabels(ls)| + 1;
                r.status == Ok && r.qname == Joined([], ls) && r.qtype == Rd16(v, end) && r.answersOff == end + 4 && r.ancount == Rd16(v, 6)
      {
        QuestionIsRead(v, ls);
      }
      if ParseQuestion(v).status == Ok {
        var ls := QuestionHasName(v);
      }
    } else {
      NoAnswerNoQuestion(v);
    }
  }

  lemma NoAnswerNoQuestion(v: seq<Byte>)
    requires !IsAnswer(v)
    ensures ParseQuestion(v).status == NotAnswer
  {
    hide QRun, QStep;
    QDone(v, QBegin(v), QNAME_STEPS);
  }

  lemma QuestionIsRead(v: seq<Byte>, ls: seq<seq<Byte>>)
    requires IsAnswer(v) && QuestionNamed(v, ls)
    ensures var r, end := ParseQuestion(v), 12 + |PrintLabels(ls)| + 1;
            r.status == Ok && r.qname == Joined([], ls) && r.qtype == Rd16(v, end) && r.answersOff == end + 4 && r.ancount == Rd16(v, 6)
  {
    hide Joined, PrintLabels, HostLabels, Whole, IsAnswer, QStep;
    JoinedLength([], ls);
    assert [] + (PrintLabels(ls) + [0]) == PrintLabels(ls) + [0];
    assert [] + LowerAll([]) == [];
    var steps: nat := QNAME_STEPS;
    QWalks(v, QBegin(v), [], ls, steps) by {
      BeginIs(v);
    }
    BeginIs(v);
    hide QRun;
  }

  // The name a question walk that ended well has read, and where.
  lemma QuestionOf(v: seq<Byte>) returns (ls: seq<seq<Byte>>)
    requires ParseQuestion(v).status == Ok
    ensures IsAnswer(v) && QuestionNamed(v, ls)
    ensures var r, end := ParseQuestion(v), 12 + |PrintLabels(ls)| + 1;
            r.qname == Joined([], ls) && r.qtype == Rd16(v, end) && r.answersOff == end + 4 && r.ancount == Rd16(v, 6)
  {
    if !IsAnswer(v) {
      QDone(v, QBegin(v), QNAME_STEPS);
    }
    hide ParseQuestion, IsAnswer;
    ls := QuestionHasName(v);
    QuestionIsRead(v, ls);
  }

  lemma BeginIs(v: seq<Byte>)
    requires IsAnswer(v)
    ensures QBegin(v) == Question(Running, [], 0, Rd16(v, 6), 0, 12, 0)
  {
  }

  lemma QuestionHasName(v: seq<Byte>) returns (ls: seq<seq<Byte>>)
    requires IsAnswer(v) && ParseQuestion(v).status == Ok
    ensures QuestionNamed(v, ls)
  {
    hide QRun, QStep;
    var steps: nat := QNAME_STEPS;
    var part, ls' := QHasRead(v, QBegin(v), steps);
    ls := ls';
    assert part == [];
    assert [] + (PrintLabels(ls) + [0]) == PrintLabels(ls) + [0];
    assert [] + LowerAll([]) == [];
  }

  // ---- The answers ----

  datatype Answer = Answer(status: Scan, recs: seq<Addr>, off: nat, done: nat, inName: bool)

  function ABegin(off: nat): (r: Answer) {
    Answer(Running, [], off, 0, true)
  }

  function AStep(v: seq<Byte>, ancount: nat, qtype: nat, a: Answer): (r: Answer) {
    if a.status != Running then a
    else if a.done >= ancount then a.(status := Ok)
    else if a.inName then
      if a.off >= |v| then a.(status := Incomplete) else
      var b: nat := v[a.off];
      if b == 0 then a.(off := a.off + 1, inName := false)
      else if b >= 0xC0 then a.(off := a.off + 2, inName := false)
      else if b >= 0x40 then a.(status := Malformed)
      else a.(off := a.off + 1 + b)
    else if a.off + 10 > |v| then a.(status := Incomplete)
    else
      var typ, cls, ttl, rdlen := Rd16(v, a.off), Rd16(v, a.off + 2), Rd16(v, a.off + 4) * 0x1_0000 + Rd16(v, a.off + 6), Rd16(v, a.off + 8);
      var at := a.off + 10;
      if at + rdlen > |v| then a.(status := Incomplete) else
      var next := a.(off := at + rdlen, done := a.done + 1, inName := true);
      if AddrLen(qtype) == 0 || typ != qtype || cls != CLASS_IN then next
      else if rdlen != AddrLen(qtype) then a.(status := Malformed)
      else if |a.recs| >= MAX_ADDR_RECORDS then a.(status := Incomplete)
      else next.(recs := a.recs + [Addr(at, ttl, v[at..at + rdlen])])
  }

  function ARun(v: seq<Byte>, ancount: nat, qtype: nat, a: Answer, n: nat): (r: Answer)
    decreases n
  {
    if n == 0 then a else ARun(v, ancount, qtype, AStep(v, ancount, qtype, a), n - 1)
  }

  function AEnd(ancount: nat, a: Answer): (r: Answer) {
    if a.status == Running then a.(status := if a.done >= ancount then Ok else Incomplete) else a
  }

  // dns_scan_addr_records
  function ScanAddrRecords(v: seq<Byte>, off: nat, ancount: nat, qtype: nat): (r: Answer) {
    AEnd(ancount, ARun(v, ancount, qtype, ABegin(off), SCAN_STEPS))
  }

  // Steps for what is left: one per label, one for a name's end, one per record.
  function Steps(rs: seq<Record>): (n: nat)
    ensures n >= 2 * |rs|
  {
    if rs == [] then 0 else |rs[0].owner.labels| + 2 + Steps(rs[1..])
  }

  // The records left to walk fit: their addresses have the right length, there are few enough of them, and the
  // steps suffice.
  predicate Fits(rs: seq<Record>, qtype: nat, listed: nat, n: int) {
    RightLengths(rs, qtype) && listed + CountOf(rs, qtype) <= MAX_ADDR_RECORDS && Steps(rs) <= n
  }

  lemma FitsStep(rs: seq<Record>, qtype: nat, listed: nat, n: int)
    requires rs != []
    ensures var r := rs[0]; var here := if Answers(r, qtype) then 1 else 0;
            && Steps(rs) >= 2
            && (Fits(rs, qtype, listed, n) <==>
                  (Answers(r, qtype) ==> |r.rdata| == AddrLen(qtype))
                  && Fits(rs[1..], qtype, listed + here, n - |r.owner.labels| - 2))
  {
    RestOfRecords(rs, qtype);
    hide Answers, RightLengths, AddrLen;
  }

  lemma {:induction false} ADone(v: seq<Byte>, ancount: nat, qtype: nat, a: Answer, n: nat)
    requires a.status != Running
    ensures ARun(v, ancount, qtype, a, n) == a
  {
    if n > 0 {
      ADone(v, ancount, qtype, a, n - 1);
    }
  }

  lemma {:induction false} AFinished(v: seq<Byte>, ancount: nat, qtype: nat, a: Answer, n: nat)
    requires a.status == Running && a.done >= ancount
    ensures AEnd(ancount, ARun(v, ancount, qtype, a, n)) == a.(status := Ok)
  {
    if n > 0 {
      ADone(v, ancount, qtype, a.(status := Ok), n - 1);
    }
  }

  // The first label of a name that is left.
  lemma LabelWalked(v: seq<Byte>, ancount: nat, qtype: nat, a: Answer, r: Record, rest: seq<Byte>)
    requires ValidRecord(r) && a.status == Running && a.inName && a.done < ancount && r.owner.labels != []
    requires Whole(v, a.off, PrintName(r.owner) + rest)
    ensures var r' := r.(owner := r.owner.(labels := r.owner.labels[1..]));
            var a' := a.(off := a.off + 1 + |r.owner.labels[0]|);
            && ValidRecord(r') && AStep(v, ancount, qtype, a) == a' && Whole(v, a'.off, PrintName(r'.owner) + rest)
            && |PrintName(r.owner)| == 1 + |r.owner.labels[0]| + |PrintName(r'.owner)|
  {
    hide AStep;
    var l, ls := r.owner.labels[0], r.owner.labels[1..];
    var r' := r.(owner := r.owner.(labels := ls));
    LabelPrinted(r, r', rest);
    hide *;
    WholeSplit(v, a.off, [|l|], l + (PrintName(r'.owner) + rest));
    WholeSplit(v, a.off + 1, l, PrintName(r'.owner) + rest);
    WholeByte(v, a.off, |l|);
    NameStep(v, ancount, qtype, a);
  }

  lemma LabelPrinted(r: Record, r': Record, rest: seq<Byte>)
    requires ValidRecord(r) && r.owner.labels != [] && r' == r.(owner := r.owner.(labels := r.owner.labels[1..]))
    ensures ValidRecord(r') && ValidName(r.owner) && ValidName(r'.owner) && 1 <= |r.owner.labels[0]| <= 63
    ensures PrintName(r.owner) + rest == [|r.owner.labels[0]|] + (r.owner.labels[0] + (PrintName(r'.owner) + rest))
    ensures |PrintName(r.owner)| == 1 + |r.owner.labels[0]| + |PrintName(r'.owner)|
  {
    assert forall i :: 0 <= i < |r'.owner.labels| ==> r'.owner.labels[i] == r.owner.labels[i + 1];
    PrintLabelMore(r', r, r.owner.labels[0], rest);
    PrintLabelMore(r', r, r.owner.labels[0], []);
    assert |PrintName(r.owner) + []| == |PrintName(r.owner)|;
  }

  // One step in a name.
  lemma NameStep(v: seq<Byte>, ancount: nat, qtype: nat, a: Answer)
    requires a.status == Running && a.inName && a.done < ancount && a.off < |v|
    ensures var b: nat := v[a.off]; var a' := AStep(v, ancount, qtype, a);
            && (b == 0 ==> a' == a.(off := a.off + 1, inName := false))
            && (b >= 0xC0 ==> a' == a.(off := a.off + 2, inName := false))
            && (0 < b < 0x40 ==> a' == a.(off := a.off + 1 + b))
  {
    hide Rd16, AddrLen;
  }

  // The end of a name.
  lemma EndWalked(v: seq<Byte>, ancount: nat, qtype: nat, a: Answer, r: Record, rest: seq<Byte>)
    requires ValidRecord(r) && a.status == Running && a.inName && a.done < ancount && r.owner.labels == []
    requires Whole(v, a.off, PrintName(r.owner) + rest)
    ensures var a' := a.(off := a.off + |PrintName(r.owner)|, inName := false);
            AStep(v, ancount, qtype, a) == a' && Whole(v, a'.off, rest)
  {
    hide AStep;
    var e := PrintName(r.owner);
    EndPrinted(r.owner);
    hide *;
    WholeSplit(v, a.off, e, rest);
    WholeSplit(v, a.off, [e[0]], e[1..]);
    WholeByte(v, a.off, e[0]);
    NameStep(v, ancount, qtype, a);
  }

  lemma EndPrinted(n: Name)
    requires ValidName(n) && n.labels == []
    ensures var e := PrintName(n);
            e != [] && e == [e[0]] + e[1..] && ((e[0] == 0 && |e| == 1) || (e[0] >= 0xC0 && |e| == 2))
  {
    assert PrintName(n) == PrintEnd(n);
  }

  // The fields of a record that is there, as they are read.
  lemma FieldsRead(v: seq<Byte>, off: nat, r: Record, rest: seq<Byte>)
    requires ValidRecord(r) && Whole(v, off, PrintBody(r) + rest)
    ensures off + 10 + |r.rdata| <= |v| && Rd16(v, off) == r.typ && Rd16(v, off + 2) == r.cls
    ensures Rd16(v, off + 4) * 0x1_0000 + Rd16(v, off + 6) == r.ttl && Rd16(v, off + 8) == |r.rdata|
    ensures v[off + 10..off + 10 + |r.rdata|] == r.rdata && Whole(v, off + 10 + |r.rdata|, rest)
  {
    var hi, lo := r.ttl / 0x1_0000, r.ttl % 0x1_0000;
    assert PrintBody(r) + rest == PrintFields(r) + (r.rdata + rest);
    WholeSplit(v, off, PrintFields(r), r.rdata + rest);
    WholeSplit(v, off + 10, r.rdata, rest);
    WholeSplit(v, off, U16(r.typ), U16(r.cls) + (U16(hi) + (U16(lo) + U16(|r.rdata|))));
    WholeSplit(v, off + 2, U16(r.cls), U16(hi) + (U16(lo) + U16(|r.rdata|)));
    WholeSplit(v, off + 4, U16(hi), U16(lo) + U16(|r.rdata|));
    WholeSplit(v, off + 6, U16(lo), U16(|r.rdata|));
    WholeU16(v, off, r.typ);
    WholeU16(v, off + 2, r.cls);
    WholeU16(v, off + 4, hi);
    WholeU16(v, off + 6, lo);
    WholeU16(v, off + 8, |r.rdata|);
    hide U16, Rd16, PrintFields;
  }

  // One record.
  lemma RecordWalked(v: seq<Byte>, ancount: nat, qtype: nat, a: Answer, r: Record, rest: seq<Byte>)
    requires ValidRecord(r) && a.status == Running && !a.inName && a.done < ancount && Whole(v, a.off, PrintBody(r) + rest)
    ensures var a' := a.(off := a.off + 10 + |r.rdata|, done := a.done + 1, inName := true); var r' := AStep(v, ancount, qtype, a);
            && Whole(v, a'.off, rest)
            && (if !Answers(r, qtype) then r' == a'
                else if |r.rdata| == AddrLen(qtype) && |a.recs| < MAX_ADDR_RECORDS
                then r' == a'.(recs := a.recs + [Addr(a.off + 10, r.ttl, r.rdata)])
                else r'.status == Malformed || r'.status == Incomplete)
  {
    FieldsRead(v, a.off, r, rest);
    hide Rd16, Whole, AddrLen, PrintBody;
  }

  lemma ARunStep(v: seq<Byte>, ancount: nat, qtype: nat, a: Answer, n: nat)
    ensures n > 0 ==> ARun(v, ancount, qtype, a, n) == ARun(v, ancount, qtype, AStep(v, ancount, qtype, a), n - 1)
    ensures n == 0 ==> ARun(v, ancount, qtype, a, n) == a
  {
    hide AStep;
  }

  // The walk of printed records ends well exactly when they fit, and then has listed their answers.
  lemma {:induction false} AWalks(v: seq<Byte>, ancount: nat, qtype: nat, a: Answer, rs: seq<Record>, n: nat)
    requires ValidRecords(rs) && a.status == Running && a.inName && a.done + |rs| == ancount && |a.recs| <= MAX_ADDR_RECORDS
    requires Whole(v, a.off, PrintRecords(rs))
    ensures var r := AEnd(ancount, ARun(v, ancount, qtype, a, n));
            && (r.status == Ok <==> Fits(rs, qtype, |a.recs|, n))
            && (r.status == Ok ==> r.recs == a.recs + Listing(rs, a.off, qtype))
    decreases n
  {
    if rs == [] {
      hide ARun, AStep;
      AFinished(v, ancount, qtype, a, n);
    } else if n == 0 {
      NothingFits(rs, qtype, |a.recs|);
      hide Fits, Listing;
    } else {
      hide *;
      FirstThere(v, a.off, rs, qtype);
      if rs[0].owner.labels != [] {
        AWalksLabel(v, ancount, qtype, a, rs, n);
      } else {
        AWalksEnd(v, ancount, qtype, a, rs, n);
      }
    }
  }

  lemma FirstThere(v: seq<Byte>, off: nat, rs: seq<Record>, qtype: nat)
    requires ValidRecords(rs) && rs != [] && Whole(v, off, PrintRecords(rs))
    ensures ValidRecord(rs[0]) && ValidRecords(rs[1..]) && ValidName(rs[0].owner)
    ensures Whole(v, off, PrintName(rs[0].owner) + (PrintBody(rs[0]) + PrintRecords(rs[1..])))
  {
    RestOfRecords(rs, qtype);
    hide Whole, PrintName, PrintBody;
  }

  lemma {:induction false} AWalksLabel(v: seq<Byte>, ancount: nat, qtype: nat, a: Answer, rs: seq<Record>, n: nat)
    requires ValidRecords(rs) && a.status == Running && a.inName && a.done + |rs| == ancount && |a.recs| <= MAX_ADDR_RECORDS
    requires rs != [] && n > 0 && rs[0].owner.labels != []
    requires ValidRecord(rs[0]) && ValidRecords(rs[1..]) && ValidName(rs[0].owner)
    requires Whole(v, a.off, PrintName(rs[0].owner) + (PrintBody(rs[0]) + PrintRecords(rs[1..])))
    ensures var r := AEnd(ancount, ARun(v, ancount, qtype, a, n));
            && (r.status == Ok <==> Fits(rs, qtype, |a.recs|, n))
            && (r.status == Ok ==> r.recs == a.recs + Listing(rs, a.off, qtype))
    decreases n, 0
  {
    hide *;
    var r := rs[0];
    ARunStep(v, ancount, qtype, a, n);
    LabelWalked(v, ancount, qtype, a, r, PrintBody(r) + PrintRecords(rs[1..]));
    var r' := r.(owner := r.owner.(labels := r.owner.labels[1..]));
    SameTail(rs, r', a.off, qtype, |a.recs|, n);
    AWalks(v, ancount, qtype, a.(off := a.off + 1 + |r.owner.labels[0]|), [r'] + rs[1..], n - 1);
  }

  lemma {:induction false} AWalksEnd(v: seq<Byte>, ancount: nat, qtype: nat, a: Answer, rs: seq<Record>, n: nat)
    requires ValidRecords(rs) && a.status == Running && a.inName && a.done + |rs| == ancount && |a.recs| <= MAX_ADDR_RECORDS
    requires rs != [] && n > 0 && rs[0].owner.labels == []
    requires ValidRecord(rs[0]) && ValidRecords(rs[1..]) && ValidName(rs[0].owner)
    requires Whole(v, a.off, PrintName(rs[0].owner) + (PrintBody(rs[0]) + PrintRecords(rs[1..])))
    ensures var r := AEnd(ancount, ARun(v, ancount, qtype, a, n));
            && (r.status == Ok <==> Fits(rs, qtype, |a.recs|, n))
            && (r.status == Ok ==> r.recs == a.recs + Listing(rs, a.off, qtype))
    decreases n, 0
  {
    hide *;
    var r := rs[0];
    ARunStep(v, ancount, qtype, a, n);
    FirstListed(rs, a.off, qtype);
    FitsStep(rs, qtype, |a.recs|, n);
    EndWalked(v, ancount, qtype, a, r, PrintBody(r) + PrintRecords(rs[1..]));
    BodyWalks(v, ancount, qtype, a.(off := a.off + |PrintName(r.owner)|, inName := false), r, rs[1..], n - 1);
  }

  lemma NegativeFits(rs: seq<Record>, qtype: nat)
    ensures forall l, n: int :: n < 0 ==> !Fits(rs, qtype, l, n)
  {
  }

  lemma TooManyDoNotFit(rs: seq<Record>, qtype: nat, n: int)
    ensures forall l: nat :: l > MAX_ADDR_RECORDS ==> !Fits(rs, qtype, l, n)
  {
  }

  lemma NothingFits(rs: seq<Record>, qtype: nat, listed: nat)
    requires rs != []
    ensures !Fits(rs, qtype, listed, 0)
  {
    StepsOf(rs);
  }

  lemma StepsOf(rs: seq<Record>)
    requires rs != []
    ensures Steps(rs) == |rs[0].owner.labels| + 2 + Steps(rs[1..])
  {
  }

  // The same list with one label less on its first owner, printed one label later.
  lemma SameTail(rs: seq<Record>, r': Record, off: nat, qtype: nat, listed: nat, n: int)
    requires ValidRecords(rs) && rs != [] && rs[0].owner.labels != []
    requires r' == rs[0].(owner := rs[0].owner.(labels := rs[0].owner.labels[1..])) && ValidRecord(r')
    requires ValidName(rs[0].owner) && |PrintName(rs[0].owner)| == 1 + |rs[0].owner.labels[0]| + |PrintName(r'.owner)|
    ensures var rs' := [r'] + rs[1..]; var off' := off + 1 + |rs[0].owner.labels[0]|;
            && ValidRecords(rs') && |rs'| == |rs| && ValidRecords(rs[1..]) && ValidRecord(rs[0])
            && Listing(rs', off', qtype) == Listing(rs, off, qtype)
            && (Fits(rs', qtype, listed, n - 1) <==> Fits(rs, qtype, listed, n))
            && PrintRecords(rs') == PrintName(r'.owner) + (PrintBody(rs[0]) + PrintRecords(rs[1..]))
  {
    var rs' := [r'] + rs[1..];
    var off' := off + 1 + |rs[0].owner.labels[0]|;
    assert rs'[1..] == rs[1..] && rs'[0] == r';
    RestOfRecords(rs, qtype);
    RestOfRecords(rs', qtype);
    assert PrintBody(r') == PrintBody(rs[0]);
    assert PrintRecords(rs') == PrintName(r'.owner) + (PrintBody(r') + PrintRecords(rs[1..]));
    assert Answers(r', qtype) == Answers(rs[0], qtype);
    FirstListed(rs, off, qtype);
    FirstListed(rs', off', qtype);
    FitsStep(rs, qtype, listed, n);
    FitsStep(rs', qtype, listed, n - 1);
    hide Listing, PrintName, ValidRecord, ValidRecords, PrintBody, Answers, Fits, AddrLen, PrintRecords, RightLengths;
  }

  // A record past its name, and the records after it.
  lemma {:induction false} BodyWalks(v: seq<Byte>, ancount: nat, qtype: nat, a: Answer, r: Record, rs: seq<Record>, n: nat)
    requires ValidRecord(r) && ValidRecords(rs) && a.status == Running && !a.inName && a.done + 1 + |rs| == ancount
    requires |a.recs| <= MAX_ADDR_RECORDS && Whole(v, a.off, PrintBody(r) + PrintRecords(rs))
    ensures var r' := AEnd(ancount, ARun(v, ancount, qtype, a, n)); var listed := if Answers(r, qtype) then [Addr(a.off + 10, r.ttl, r.rdata)] else [];
            && (r'.status == Ok <==> (Answers(r, qtype) ==> |r.rdata| == AddrLen(qtype)) && Fits(rs, qtype, |a.recs| + |listed|, n - 1))
            && (r'.status == Ok ==> r'.recs == a.recs + (listed + Listing(rs, a.off + 10 + |r.rdata|, qtype)))
    decreases n
  {
    hide *;
    ARunStep(v, ancount, qtype, a, n);
    if n == 0 {
      NegativeFits(rs, qtype);
      RunningIsIncomplete(ancount, a);
    } else {
      RecordWalked(v, ancount, qtype, a, r, PrintRecords(rs));
      TooManyDoNotFit(rs, qtype, n - 1);
      var next := AStep(v, ancount, qtype, a);
      if next.status == Running {
        RecordKept(a, next, r, qtype, Listing(rs, next.off, qtype));
        AWalks(v, ancount, qtype, next, rs, n - 1);
      } else {
        ADone(v, ancount, qtype, next, n - 1);
        StoppedIsSo(ancount, next);
      }
    }
  }

  lemma RunningIsIncomplete(ancount: nat, a: Answer)
    requires a.status == Running && a.done < ancount
    ensures AEnd(ancount, a).status == Incomplete
  {
  }

  lemma StoppedIsSo(ancount: nat, a: Answer)
    requires a.status != Running
    ensures AEnd(ancount, a) == a
  {
  }

  lemma RecordKept(a: Answer, next: Answer, r: Record, qtype: nat, l: seq<Addr>)
    requires |a.recs| <= MAX_ADDR_RECORDS
    requires var a' := a.(off := a.off + 10 + |r.rdata|, done := a.done + 1, inName := true);
             if !Answers(r, qtype) then next == a'
             else |a.recs| < MAX_ADDR_RECORDS && next == a'.(recs := a.recs + [Addr(a.off + 10, r.ttl, r.rdata)])
    ensures |next.recs| <= MAX_ADDR_RECORDS
    ensures var listed := if Answers(r, qtype) then [Addr(a.off + 10, r.ttl, r.rdata)] else [];
            next.recs + l == a.recs + (listed + l) && |next.recs| == |a.recs| + |listed|
  {
    hide Answers;
  }

  // The records of the answer section are printed at off, all of them.
  ghost predicate AnswersAt(v: seq<Byte>, off: nat, ancount: nat, rs: seq<Record>) {
    ValidRecords(rs) && |rs| == ancount && Whole(v, off, PrintRecords(rs))
  }

  // Of any answer section: the scan ends well exactly when it fits, and then has listed exactly its IN records
  // of the question's type, in order.
  lemma ScanExactly(v: seq<Byte>, off: nat, ancount: nat, qtype: nat, rs: seq<Record>)
    requires AnswersAt(v, off, ancount, rs)
    ensures var a := ScanAddrRecords(v, off, ancount, qtype);
            && (a.status == Ok <==> Fits(rs, qtype, 0, SCAN_STEPS))
            && (a.status == Ok ==> a.recs == Listing(rs, off, qtype))
  {
    hide ARun, Listing, Fits, Whole, ValidRecords, PrintRecords;
    var steps: nat := SCAN_STEPS;
    AWalks(v, ancount, qtype, ABegin(off), rs, steps);
  }

  // What a scan that ends well has walked: printed records, all of them there.
  lemma {:induction false} AHasWalked(v: seq<Byte>, ancount: nat, qtype: nat, a: Answer, n: nat) returns (rs: seq<Record>)
    requires a.status == Running && a.inName && a.done <= ancount && (a.done == ancount ==> a.off <= |v|)
    requires AEnd(ancount, ARun(v, ancount, qtype, a, n)).status == Ok
    ensures AnswersAt(v, a.off, ancount - a.done, rs)
    decreases n
  {
    if a.done == ancount {
      rs := [];
    } else {
      var a' := AStep(v, ancount, qtype, a);
      if a'.status != Running {
        ADone(v, ancount, qtype, a', n - 1);
        rs := [];
      } else if var b: nat := v[a.off]; b != 0 && b < 0x40 {
        var rs' := AHasWalked(v, ancount, qtype, a', n - 1);
        rs := WithLabel(v, a.off, rs');
      } else {
        var r, rest := BodyHasWalked(v, ancount, qtype, a', n - 1);
        rs := WithEnd(v, a.off, r, rest);
      }
    }
  }

  // A walk that ends well gets past the record.
  lemma BodyRuns(v: seq<Byte>, ancount: nat, qtype: nat, a: Answer, n: nat)
    requires a.status == Running && !a.inName && a.done < ancount
    requires AEnd(ancount, ARun(v, ancount, qtype, a, n)).status == Ok
    ensures n > 0 && AStep(v, ancount, qtype, a).status == Running
  {
    hide ARun, Rd16, AddrLen;
    ARunStep(v, ancount, qtype, a, n);
    var a' := AStep(v, ancount, qtype, a);
    if n > 0 && a'.status != Running {
      ADone(v, ancount, qtype, a', n - 1);
    }
  }

  lemma {:induction false} BodyHasWalked(v: seq<Byte>, ancount: nat, qtype: nat, a: Answer, n: nat) returns (r: Record, rs: seq<Record>)
    requires a.status == Running && !a.inName && a.done < ancount
    requires AEnd(ancount, ARun(v, ancount, qtype, a, n)).status == Ok
    ensures r.owner == Name([], None) && ValidRecord(r) && AnswersAt(v, a.off + 10 + |r.rdata|, ancount - a.done - 1, rs)
    ensures Whole(v, a.off, PrintBody(r) + PrintRecords(rs))
    decreases n
  {
    hide *;
    var a' := AStep(v, ancount, qtype, a);
    BodyRuns(v, ancount, qtype, a, n);
    ARunStep(v, ancount, qtype, a, n);
    r := RecordRead(v, ancount, qtype, a);
    rs := AHasWalked(v, ancount, qtype, a', n - 1);
    AnswersThere(v, a'.off, ancount - a'.done, rs);
    BodyIs(v, a.off, r, PrintRecords(rs));
  }

  lemma AnswersThere(v: seq<Byte>, off: nat, ancount: nat, rs: seq<Record>)
    requires AnswersAt(v, off, ancount, rs)
    ensures ValidRecords(rs) && Whole(v, off, PrintRecords(rs))
  {
  }

  // The record a step went over.
  lemma RecordRead(v: seq<Byte>, ancount: nat, qtype: nat, a: Answer) returns (r: Record)
    requires a.status == Running && !a.inName && a.done < ancount && AStep(v, ancount, qtype, a).status == Running
    ensures r.owner == Name([], None) && ValidRecord(r)
    ensures a.off + 10 <= |v| && Rd16(v, a.off) == r.typ && Rd16(v, a.off + 2) == r.cls
    ensures Rd16(v, a.off + 4) * 0x1_0000 + Rd16(v, a.off + 6) == r.ttl && Rd16(v, a.off + 8) == |r.rdata|
    ensures Whole(v, a.off + 10, r.rdata) && a.off + 10 + |r.rdata| <= |v|
    ensures var a' := AStep(v, ancount, qtype, a); a'.inName && a'.done == a.done + 1 && a'.off == a.off + 10 + |r.rdata|
  {
    var ttl := Rd16(v, a.off + 4) * 0x1_0000 + Rd16(v, a.off + 6);
    var at, rdlen := a.off + 10, Rd16(v, a.off + 8);
    r := Record(Name([], None), Rd16(v, a.off), Rd16(v, a.off + 2), ttl, v[at..at + rdlen]);
    hide Rd16;
  }

  lemma BodyIs(v: seq<Byte>, off: nat, r: Record, rest: seq<Byte>)
    requires ValidRecord(r) && off + 10 <= |v| && Rd16(v, off) == r.typ && Rd16(v, off + 2) == r.cls
    requires Rd16(v, off + 4) * 0x1_0000 + Rd16(v, off + 6) == r.ttl && Rd16(v, off + 8) == |r.rdata|
    requires Whole(v, off + 10, r.rdata) && Whole(v, off + 10 + |r.rdata|, rest)
    ensures Whole(v, off, PrintBody(r) + rest)
  {
    FieldsAre(v, off, r);
    BodySplit(r, rest);
    hide *;
    WholeSplit(v, off + 10, r.rdata, rest);
    WholeSplit(v, off, PrintFields(r), r.rdata + rest);
  }

  lemma BodySplit(r: Record, rest: seq<Byte>)
    requires ValidRecord(r)
    ensures PrintBody(r) + rest == PrintFields(r) + (r.rdata + rest)
  {
    hide PrintFields;
  }

  lemma FieldsAre(v: seq<Byte>, off: nat, r: Record)
    requires ValidRecord(r) && off + 10 <= |v| && Rd16(v, off) == r.typ && Rd16(v, off + 2) == r.cls
    requires Rd16(v, off + 4) * 0x1_0000 + Rd16(v, off + 6) == r.ttl && Rd16(v, off + 8) == |r.rdata|
    ensures Whole(v, off, PrintFields(r))
  {
    var hi, lo := r.ttl / 0x1_0000, r.ttl % 0x1_0000;
    assert hi == Rd16(v, off + 4) && lo == Rd16(v, off + 6);
    hide U16, Rd16, Whole;
    WholeU16(v, off, r.typ);
    WholeU16(v, off + 2, r.cls);
    WholeU16(v, off + 4, hi);
    WholeU16(v, off + 6, lo);
    WholeU16(v, off + 8, |r.rdata|);
    WholeSplit(v, off + 6, U16(lo), U16(|r.rdata|));
    WholeSplit(v, off + 4, U16(hi), U16(lo) + U16(|r.rdata|));
    WholeSplit(v, off + 2, U16(r.cls), U16(hi) + (U16(lo) + U16(|r.rdata|)));
    WholeSplit(v, off, U16(r.typ), U16(r.cls) + (U16(hi) + (U16(lo) + U16(|r.rdata|))));
  }

  // The end of a name at off.
  lemma NameEnd(v: seq<Byte>, off: nat) returns (owner: Name)
    requires off < |v| && (v[off] == 0 || (v[off] >= 0xC0 && off + 2 <= |v|))
    ensures owner.labels == [] && ValidName(owner) && |PrintName(owner)| == (if v[off] == 0 then 1 else 2) && Whole(v, off, PrintName(owner))
  {
    if v[off] == 0 {
      owner := Name([], None);
      assert PrintName(owner) == [0];
    } else {
      var hi, lo: nat := Rd8(v, off) - 0xC0, Rd8(v, off + 1);
      var p := hi * 256 + lo;
      assert p / 256 == hi && p % 256 == lo;
      owner := Name([], Some(p));
      assert PrintName(owner) == [0xC0 + hi, lo] == v[off..off + 2];
    }
  }

  // A record whose owner's name ends at off.
  lemma WithEnd(v: seq<Byte>, off: nat, r: Record, rest: seq<Record>) returns (rs: seq<Record>)
    requires off < |v| && (v[off] == 0 || v[off] >= 0xC0) && ValidRecord(r) && ValidRecords(rest)
    requires Whole(v, if v[off] == 0 then off + 1 else off + 2, PrintBody(r) + PrintRecords(rest))
    ensures AnswersAt(v, off, 1 + |rest|, rs)
  {
    var owner := NameEnd(v, off);
    var r' := r.(owner := owner);
    rs := [r'] + rest;
    assert rs[1..] == rest && rs[0] == r';
    assert ValidRecord(r') && PrintBody(r') == PrintBody(r);
    RestOfRecords(rs, 0);
    assert PrintRecords(rs) == PrintName(owner) + (PrintBody(r) + PrintRecords(rest));
    hide Whole, PrintBody, PrintName, PrintRecords, ValidRecord, ValidRecords;
    WholeSplit(v, off, PrintName(owner), PrintBody(r) + PrintRecords(rest));
  }

  // One label more in front of the first record's owner.
  lemma WithLabel(v: seq<Byte>, off: nat, rs': seq<Record>) returns (rs: seq<Record>)
    requires off < |v| && 1 <= v[off] < 0x40 && rs' != [] && AnswersAt(v, off + 1 + v[off], |rs'|, rs')
    ensures AnswersAt(v, off, |rs'|, rs)
  {
    RestOfRecords(rs', 0);
    assert PrintRecords(rs') == PrintName(rs'[0].owner) + (PrintBody(rs'[0]) + PrintRecords(rs'[1..]));
    var r := OneLabelMore(v, off, rs'[0], PrintBody(rs'[0]) + PrintRecords(rs'[1..]));
    rs := [r] + rs'[1..];
    assert rs[1..] == rs'[1..] && rs[0] == r;
    RestOfRecords(rs, 0);
    assert PrintRecords(rs) == PrintName(r.owner) + (PrintBody(r) + PrintRecords(rs'[1..]));
    hide PrintRecords, PrintName, Whole, PrintBody, ValidRecord, ValidRecords;
  }

  lemma PrintLabelMore(r': Record, r: Record, l: seq<Byte>, rest: seq<Byte>)
    requires ValidName(r.owner) && ValidName(r'.owner) && r.owner.labels != [] && r.owner.labels[0] == l
    requires r.owner.labels[1..] == r'.owner.labels && r.owner.ptr == r'.owner.ptr && 1 <= |l| <= 63
    ensures PrintName(r.owner) + rest == [|l|] + (l + (PrintName(r'.owner) + rest))
  {
    assert PrintLabels(r.owner.labels) == [|l|] + (l + PrintLabels(r'.owner.labels));
    assert PrintEnd(r.owner) == PrintEnd(r'.owner);
    hide PrintLabels, PrintEnd;
  }

  lemma WholeFits(v: seq<Byte>, off: nat, p: seq<Byte>)
    requires Whole(v, off, p)
    ensures off + |p| <= |v|
  {
  }

  lemma LabelledRecord(r: Record, r': Record, l: seq<Byte>)
    requires ValidRecord(r') && 1 <= |l| <= 63 && r == r'.(owner := r'.owner.(labels := [l] + r'.owner.labels))
    ensures ValidRecord(r) && PrintBody(r) == PrintBody(r') && ValidName(r.owner) && ValidName(r'.owner)
    ensures r.owner.labels[1..] == r'.owner.labels && r.owner.labels[0] == l
  {
    assert r.owner.labels[1..] == r'.owner.labels && r.owner.labels[0] == l;
    forall i | 0 <= i < |r.owner.labels| ensures 1 <= |r.owner.labels[i]| <= 63 {
      assert i > 0 ==> r.owner.labels[i] == r'.owner.labels[i - 1];
    }
  }

  lemma OneLabelMore(v: seq<Byte>, off: nat, r': Record, rest: seq<Byte>) returns (r: Record)
    requires off < |v| && 1 <= v[off] < 0x40 && ValidRecord(r') && Whole(v, off + 1 + v[off], PrintName(r'.owner) + rest)
    ensures ValidRecord(r) && PrintBody(r) == PrintBody(r') && Whole(v, off, PrintName(r.owner) + rest)
  {
    var len := Rd8(v, off);
    assert off + 1 + len <= |v| by {
      hide *;
      WholeFits(v, off + 1 + len, PrintName(r'.owner) + rest);
    }
    var l := v[off + 1..off + 1 + len];
    r := r'.(owner := r'.owner.(labels := [l] + r'.owner.labels));
    LabelledRecord(r, r', l);
    WholeByte(v, off, len);
    assert Whole(v, off + 1, l);
    hide *;
    PrintLabelMore(r', r, l, rest);
    WholeSplit(v, off + 1, l, PrintName(r'.owner) + rest);
    WholeSplit(v, off, [len], l + (PrintName(r'.owner) + rest));
  }

  // Whatever a scan accepts is an answer section of printed records.
  lemma ScanIsOfRecords(v: seq<Byte>, off: nat, ancount: nat, qtype: nat) returns (rs: seq<Record>)
    requires off <= |v| && ScanAddrRecords(v, off, ancount, qtype).status == Ok
    ensures AnswersAt(v, off, ancount, rs)
  {
    hide ARun;
    var steps: nat := SCAN_STEPS;
    rs := AHasWalked(v, ancount, qtype, ABegin(off), steps);
  }
}
