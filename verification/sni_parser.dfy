/** The server name of a TLS ClientHello (section 4.1.2 of RFC 8446, section 3 of RFC 6066): the walk over the
    first bytes of a record, against a printer of ClientHellos. */
module SniParser {
  import opened Options
  import opened Wire
  import opened SocketSecrets

  const BUF_LEN := 2048
  const MAX_EXTS := 32
  const SERVER_NAME := 0x0000
  const ECH := 0xfe0d

  // ---- ClientHellos ----

  datatype Ext = Ext(typ: nat, data: seq<Byte>)

  // `random` is the version and the random.
  datatype ClientHello = ClientHello(minor: Byte, recLen: nat, random: seq<Byte>, session: seq<Byte>, ciphers: seq<Byte>,
                                     methods: seq<Byte>, exts: Option<seq<Ext>>)

  predicate ValidExts(es: seq<Ext>) {
    forall i :: 0 <= i < |es| ==> es[i].typ < 0x1_0000 && |es[i].data| < 0x1_0000
  }

  function PrintExts(es: seq<Ext>): (r: seq<Byte>)
    requires ValidExts(es)
  {
    if es == [] then [] else U16(es[0].typ) + (U16(|es[0].data|) + (es[0].data + PrintExts(es[1..])))
  }

  function ExtsPart(h: ClientHello): (r: seq<Byte>)
    requires h.exts.Some? ==> ValidExts(h.exts.value) && |PrintExts(h.exts.value)| < 0x1_0000
  {
    match h.exts
    case None => []
    case Some(es) => U16(|PrintExts(es)|) + PrintExts(es)
  }

  function BodyLen(h: ClientHello): (r: nat)
    requires h.exts.Some? ==> ValidExts(h.exts.value) && |PrintExts(h.exts.value)| < 0x1_0000
  {
    34 + 1 + |h.session| + 2 + |h.ciphers| + 1 + |h.methods| + |ExtsPart(h)|
  }

  // One record that holds the ClientHello, and perhaps more.
  predicate Valid(h: ClientHello) {
    && |h.random| == 34 && |h.session| < 256 && |h.ciphers| < 0x1_0000 && |h.methods| < 256
    && (h.exts.Some? ==> ValidExts(h.exts.value) && |PrintExts(h.exts.value)| < 0x1_0000)
    && 4 + BodyLen(h) <= h.recLen < 0x1_0000
  }

  // The session id, the cipher suites, the compression methods and the extensions.
  function PrintVectors(h: ClientHello): (r: seq<Byte>)
    requires Valid(h)
  {
    [|h.session|] + (h.session + (U16(|h.ciphers|) + (h.ciphers + ([|h.methods|] + (h.methods + ExtsPart(h))))))
  }

  function Print(h: ClientHello): (r: seq<Byte>)
    requires Valid(h)
  {
    [0x16, 0x03, h.minor] + (U16(h.recLen) + ([0x01] + (U24(BodyLen(h)) + (h.random + PrintVectors(h)))))
  }

  // v is the copied part of the hello, and perhaps more.
  predicate Copied(v: seq<Byte>, h: ClientHello) {
    Valid(h) && Agrees(v, 0, Print(h))
  }

  // ---- What a hello says ----

  // A server_name extension's data with one host_name.
  function ServerNames(name: seq<Byte>): (r: seq<Byte>)
    requires |name| < 64
  {
    U16(|name| + 3) + [0] + U16(|name|) + name
  }

  predicate IsServerNames(data: seq<Byte>) {
    && 6 <= |data| < 5 + 64 && Rd16(data, 0) == |data| - 2 && data[2] == 0 && Rd16(data, 3) == |data| - 5
  }

  lemma ServerNamesExactly(data: seq<Byte>)
    ensures IsServerNames(data) <==> exists name: seq<Byte> :: 1 <= |name| < 64 && data == ServerNames(name)
  {
    if IsServerNames(data) {
      ServerNamesBack(data);
      assert 1 <= |data[5..]| < 64 && data == ServerNames(data[5..]);
    }
    hide ServerNames, IsServerNames;
    forall name: seq<Byte> | 1 <= |name| < 64 && data == ServerNames(name) ensures IsServerNames(data) {
      ServerNamesAre(name);
    }
  }

  lemma ServerNamesBack(data: seq<Byte>)
    requires IsServerNames(data)
    ensures data == ServerNames(data[5..])
  {
    U16Read(data, 0);
    U16Read(data, 3);
    hide U16, Rd16;
    var name := data[5..];
    assert U16(|name| + 3) == data[0..2] && U16(|name|) == data[3..5];
    assert data == data[0..2] + [data[2]] + data[3..5] + name;
  }

  lemma ServerNamesAre(name: seq<Byte>)
    requires 1 <= |name| < 64
    ensures IsServerNames(ServerNames(name)) && ServerNames(name)[5..] == name
  {
    var data := ServerNames(name);
    assert data[0] == U16(|name| + 3)[0] && data[1] == U16(|name| + 3)[1];
    assert data[3] == U16(|name|)[0] && data[4] == U16(|name|)[1];
  }

  // The data of the server_name extensions.
  function NamesOf(es: seq<Ext>): (r: seq<seq<Byte>>) {
    if es == [] then [] else (if es[0].typ == SERVER_NAME then [es[0].data] else []) + NamesOf(es[1..])
  }

  predicate NoEch(es: seq<Ext>) {
    forall i :: 0 <= i < |es| ==> es[i].typ != ECH
  }

  // A host_name, lowercased and without a trailing dot, if it is one.
  function HostOf(name: seq<Byte>): (r: Option<string>) {
    var low := LowerAll(name);
    if exists i :: 0 <= i < |low| && !HostByte(low[i]) then None else
    var host := if |low| > 0 && low[|low| - 1] == 0x2e then low[..|low| - 1] else low;
    if host == [] then None else Some(Text(host))
  }

  // The hello names the host: at most 32 extensions, no ECH, one server_name, with one valid host_name.
  predicate Names(h: ClientHello, host: string) {
    && h.exts.Some? && |h.exts.value| <= MAX_EXTS && NoEch(h.exts.value)
    && |NamesOf(h.exts.value)| == 1
    && IsServerNames(NamesOf(h.exts.value)[0]) && HostOf(NamesOf(h.exts.value)[0][5..]) == Some(host)
  }

  // ---- The same, spelled out ----

  // The name is a host's: letters, digits, "-", "." and "_"; the host is the name in small letters, less a final dot.
  predicate SpellsHost(name: seq<Byte>, host: string) {
    && (forall k :: 0 <= k < |name| ==>
          var ch := name[k] as char;
          'a' <= ch <= 'z' || 'A' <= ch <= 'Z' || '0' <= ch <= '9' || ch == '-' || ch == '.' || ch == '_')
    && 0 < |host| == |name| - (if name != [] && name[|name| - 1] as char == '.' then 1 else 0)
    && (forall k :: 0 <= k < |host| ==>
          host[k] == if 'A' <= name[k] as char <= 'Z' then (name[k] + 32) as char else name[k] as char)
  }

  // One extension of type 0, the only one, holds one host_name of 1 to 63 bytes that spells the host; there are at most
  // 32 extensions, and none of type 0xfe0d.
  ghost predicate NamesHost(h: ClientHello, host: string) {
    && h.exts.Some? && |h.exts.value| <= 32 && (forall i :: 0 <= i < |h.exts.value| ==> h.exts.value[i].typ != 0xfe0d)
    && exists i, name :: SoleName(h.exts.value, i, name) && SpellsHost(name, host)
  }

  predicate SoleName(es: seq<Ext>, i: int, name: seq<Byte>) {
    && 0 <= i < |es| && es[i].typ == 0 && (forall j :: 0 <= j < |es| && j != i ==> es[j].typ != 0)
    && 1 <= |name| <= 63 && es[i].data == U16(|name| + 3) + [0] + U16(|name|) + name
  }

  lemma HostOfExactly(name: seq<Byte>, host: string)
    ensures HostOf(name) == Some(host) <==> SpellsHost(name, host)
  {
    var low := LowerAll(name);
    forall k | 0 <= k < |name|
      ensures low[k] == if 'A' <= name[k] as char <= 'Z' then name[k] + 32 else name[k]
      ensures HostByte(low[k]) <==> (var ch := name[k] as char;
                'a' <= ch <= 'z' || 'A' <= ch <= 'Z' || '0' <= ch <= '9' || ch == '-' || ch == '.' || ch == '_')
    {
      HostBytesExactly(name[k]);
      HostBytesExactly(low[k]);
    }
    hide HostByte, LowerAll;
    if SpellsHost(name, host) {
      assert Text(if low[|low| - 1] == 0x2e then low[..|low| - 1] else low) == host;
    }
  }

  lemma {:induction false} NamesOfNone(es: seq<Ext>)
    ensures NamesOf(es) == [] <==> forall i :: 0 <= i < |es| ==> es[i].typ != 0
  {
    if es != [] {
      NamesOfNone(es[1..]);
      assert forall i :: 1 <= i < |es| ==> es[i] == es[1..][i - 1];
      assert forall i :: 0 <= i < |es[1..]| ==> es[1..][i] == es[i + 1];
    }
  }

  // The only one of type 0.
  predicate SoleAt(es: seq<Ext>, i: int, data: seq<Byte>) {
    0 <= i < |es| && es[i].typ == 0 && es[i].data == data && forall j :: 0 <= j < |es| && j != i ==> es[j].typ != 0
  }

  lemma {:induction false} NamesOfOne(es: seq<Ext>, data: seq<Byte>)
    ensures NamesOf(es) == [data] <==> exists i :: SoleAt(es, i, data)
  {
    if es != [] {
      NamesOfOne(es[1..], data);
      NamesOfNone(es[1..]);
      assert forall i :: 1 <= i < |es| ==> es[i] == es[1..][i - 1];
      if i :| SoleAt(es[1..], i, data) {
        if es[0].typ != 0 {
          assert SoleAt(es, i + 1, data);
        }
      }
      if i :| SoleAt(es, i, data) {
        if i > 0 {
          assert SoleAt(es[1..], i - 1, data);
        }
      }
      if es[0].typ == 0 && es[0].data == data && NamesOf(es[1..]) == [] {
        assert SoleAt(es, 0, data);
      }
    }
  }

  lemma NamesExactly(h: ClientHello, host: string)
    ensures Names(h, host) <==> NamesHost(h, host)
  {
    hide HostOf, SpellsHost, IsServerNames, NamesOf;
    if h.exts.Some? {
      var es := h.exts.value;
      if Names(h, host) {
        var data := NamesOf(es)[0];
        assert NamesOf(es) == [data];
        NamesOfOne(es, data);
        var i :| SoleAt(es, i, data);
        NameOfData(data);
        HostOfExactly(data[5..], host);
        assert SoleName(es, i, data[5..]);
      }
      if NamesHost(h, host) {
        var i, name :| SoleName(es, i, name) && SpellsHost(name, host);
        var data := es[i].data;
        assert SoleAt(es, i, data);
        NamesOfOne(es, data);
        ServerNamesAre(name);
        HostOfExactly(name, host);
      }
    }
  }

  lemma NameOfData(data: seq<Byte>)
    requires IsServerNames(data)
    ensures 1 <= |data[5..]| <= 63 && data == U16(|data[5..]| + 3) + [0] + U16(|data[5..]|) + data[5..]
  {
    ServerNamesBack(data);
  }

  // Every extension header is within n bytes, and the server_name extension wholly; off is where the first is.
  predicate WithinExts(n: nat, off: nat, es: seq<Ext>)
    decreases |es|
  {
    es == [] ||
    (&& off + 4 <= n
     && (es[0].typ == SERVER_NAME ==> off + 4 + |es[0].data| <= n)
     && WithinExts(n, off + 4 + |es[0].data|, es[1..]))
  }

  function ExtsStart(h: ClientHello): (r: nat) {
    9 + 34 + 1 + |h.session| + 2 + |h.ciphers| + 1 + |h.methods| + 2
  }

  predicate Within(n: nat, h: ClientHello) {
    h.exts.Some? && WithinExts(n, ExtsStart(h), h.exts.value)
  }

  // ---- Parsing ----

  datatype Head = Stop(p: Parse) | Extensions(start: nat, end: nat)

  function Fails(st: Status): (r: Parse) {
    Parsed(st, "")
  }

  // Everything before the extensions, of the bytes v.
  function Header(v: seq<Byte>): (r: Head) {
    if |v| < 9 || v[0] != 0x16 || v[1] != 0x03 || v[5] != 0x01 then Stop(NotClientHello) else
    var recEnd, hsEnd := 5 + Rd16(v, 3), 9 + (Rd8(v, 6) * 0x1_0000 + Rd16(v, 7));
    if hsEnd > recEnd then Stop(Fails(Malformed)) else Vectors(v, hsEnd)
  }

  // The session id, the cipher suites and the compression methods, and the length of the extensions.
  function Vectors(v: seq<Byte>, hsEnd: nat): (r: Head) {
    if 44 > |v| then Stop(Fails(Truncated)) else
    var o1 := 44 + Rd8(v, 43);
    if o1 + 2 > |v| then Stop(Fails(Truncated)) else
    var o2 := o1 + 2 + Rd16(v, o1);
    if o2 + 1 > |v| then Stop(Fails(Truncated)) else
    var o3 := o2 + 1 + Rd8(v, o2);
    if o3 > hsEnd then Stop(Fails(Malformed)) else
    if o3 == hsEnd then Stop(Fails(Absent)) else
    if o3 + 2 > |v| then Stop(Fails(Truncated)) else
    var extEnd := o3 + 2 + Rd16(v, o3);
    if extEnd != hsEnd then Stop(Fails(Malformed)) else Extensions(o3 + 2, extEnd)
  }

  // Where a name was found.
  datatype Found = Found(at: nat, n: nat)
  datatype WalkEnd = Invalid | Walked(off: nat, ech: bool, truncated: bool, found: Option<Found>)

  function Walk(v: seq<Byte>, off: nat, end: nat, i: nat, ech: bool, found: Option<Found>): (r: WalkEnd)
    requires i <= MAX_EXTS
    decreases MAX_EXTS - i
  {
    if i == MAX_EXTS || off >= end then Walked(off, ech, false, found)
    else if off + 4 > end then Invalid
    else if off + 4 > |v| then Walked(off, ech, true, found)
    else
      var typ, elen, at := Rd16(v, off), Rd16(v, off + 2), off + 4;
      if at + elen > end then Invalid
      else if typ != SERVER_NAME then Walk(v, at + elen, end, i + 1, ech || typ == ECH, found)
      else if found.Some? then Invalid
      else if at + elen > |v| then Walked(at, ech, true, found)
      else if !IsServerNames(v[at..at + elen]) then Invalid
      else Walk(v, at + elen, end, i + 1, ech, Some(Found(at + 5, elen - 5)))
  }

  function Verdict(v: seq<Byte>, end: nat, w: WalkEnd): (r: Parse) {
    if w.Invalid? then Fails(Malformed) else
    if w.ech then Fails(Ech) else
    if w.truncated then Fails(Truncated) else
    if w.off < end then Fails(Malformed) else
    if w.found.None? then Fails(Absent) else
    var name := w.found.value;
    if name.at + name.n > |v| then Fails(Malformed) else
    match HostOf(v[name.at..name.at + name.n])
    case None => Fails(Malformed)
    case Some(host) => Parsed(Seen, host)
  }

  function ParseHello(v: seq<Byte>): (r: Parse) {
    match Header(v)
    case Stop(p) => p
    case Extensions(start, end) => Verdict(v, end, Walk(v, start, end, 0, false, None))
  }

  // ---- Walking a printed list of extensions ----

  predicate Clean(w: WalkEnd, end: nat) {
    w.Walked? && !w.truncated && w.off >= end && !w.ech
  }

  // The first extension, as far as it is there.
  lemma FirstExt(v: seq<Byte>, off: nat, es: seq<Ext>)
    requires ValidExts(es) && es != [] && Agrees(v, off, PrintExts(es))
    ensures off + 4 <= |v| ==> Rd16(v, off) == es[0].typ && Rd16(v, off + 2) == |es[0].data|
    ensures off + 4 + |es[0].data| <= |v| ==> v[off + 4..off + 4 + |es[0].data|] == es[0].data
    ensures ValidExts(es[1..]) && Agrees(v, off + 4 + |es[0].data|, PrintExts(es[1..]))
    ensures |PrintExts(es)| == 4 + |es[0].data| + |PrintExts(es[1..])|
  {
    var e, rest := es[0], PrintExts(es[1..]);
    assert ValidExts(es[1..]);
    assert e.typ < 0x1_0000 && |e.data| < 0x1_0000;
    assert PrintExts(es) == U16(e.typ) + (U16(|e.data|) + (e.data + rest));
    hide PrintExts, Agrees, U16, ValidExts;
    AgreesSplit(v, off, U16(e.typ), U16(|e.data|) + (e.data + rest));
    AgreesSplit(v, off + 2, U16(|e.data|), e.data + rest);
    AgreesSplit(v, off + 4, e.data, rest);
    if off + 4 <= |v| {
      ReadU16(v, off, e.typ);
      ReadU16(v, off + 2, |e.data|);
    }
    if off + 4 + |e.data| <= |v| {
      AgreesWhole(v, off + 4, e.data);
    }
  }

  lemma ServerNamesLong(data: seq<Byte>)
    requires IsServerNames(data)
    ensures |data| >= 6
  {
  }

  // One extension more at the front of a clean list.
  lemma CleanStep(n: nat, off: nat, es: seq<Ext>, i: nat, ech: bool, found: bool)
    requires es != []
    ensures var at := off + 4; var next := at + |es[0].data|;
            CleanList(n, off, es, i, ech, found) <==>
              if es[0].typ == SERVER_NAME
              then i < MAX_EXTS && off + 4 <= n && !found && next <= n && IsServerNames(es[0].data) && CleanList(n, next, es[1..], i + 1, ech, true)
              else i < MAX_EXTS && off + 4 <= n && CleanList(n, next, es[1..], i + 1, ech || es[0].typ == ECH, found)
  {
    hide IsServerNames;
    var typ := es[0].typ;
    assert NoEch(es) <==> typ != ECH && NoEch(es[1..]) by {
      assert forall j :: 1 <= j < |es| ==> es[j] == es[1..][j - 1];
      if NoEch(es[1..]) && typ != ECH {
        forall j | 0 <= j < |es| ensures es[j].typ != ECH {
          assert j > 0 ==> es[1..][j - 1].typ != ECH;
        }
      }
    }
    hide NoEch;
    assert NamesOf(es) == (if typ == SERVER_NAME then [es[0].data] else []) + NamesOf(es[1..]);
    hide NamesOf;
  }

  // The walk comes to a clean end exactly when there are few enough extensions, all visible, no ECH, and at
  // most one server_name, of one host_name; and then it has found that name.
  lemma {:induction false} WalkExts(v: seq<Byte>, off: nat, es: seq<Ext>, i: nat, ech: bool, found: Option<Found>)
    requires i <= MAX_EXTS && ValidExts(es) && Agrees(v, off, PrintExts(es))
    ensures var end := off + |PrintExts(es)|; var w := Walk(v, off, end, i, ech, found);
            Clean(w, end) <==> CleanList(|v|, off, es, i, ech, found.Some?)
    ensures var end := off + |PrintExts(es)|; var w := Walk(v, off, end, i, ech, found);
            Clean(w, end) ==> FoundIn(v, es, found, w.found)
    decreases |es|
  {
    hide Rd16, PrintExts, Agrees, U16, IsServerNames, CleanList, ValidExts, FoundIn, Walk, NamesOf, Clean;
    if es == [] {
      WalkNothing(v, off, i, ech, found);
    } else {
      var e := es[0];
      var at := off + 4;
      FirstExt(v, off, es);
      CleanStep(|v|, off, es, i, ech, found.Some?);
      WalkStep(v, off, off + |PrintExts(es)|, i, ech, found, e.typ, |e.data|);
      if i < MAX_EXTS && off + 4 <= |v| {
        var end, next := off + |PrintExts(es)|, at + |e.data|;
        assert off + 4 <= end && next <= end;
        if e.typ != SERVER_NAME {
          WalkExts(v, next, es[1..], i + 1, ech || e.typ == ECH, found);
          FoundStep(v, es, found, Walk(v, off, end, i, ech, found), end);
        } else if found.None? && next <= |v| && IsServerNames(e.data) {
          ServerNamesLong(e.data);
          var here := Found(at + 5, |e.data| - 5);
          WalkExts(v, next, es[1..], i + 1, ech, Some(here));
          assert v[here.at..here.at + here.n] == v[at..next][5..];
          FoundName(v, es, here, Walk(v, off, end, i, ech, found), end);
        }
      }
    }
  }

  lemma WalkNothing(v: seq<Byte>, off: nat, i: nat, ech: bool, found: Option<Found>)
    requires i <= MAX_EXTS
    ensures |PrintExts([])| == 0
    ensures var w := Walk(v, off, off, i, ech, found);
            && (Clean(w, off) <==> CleanList(|v|, off, [], i, ech, found.Some?)) && (Clean(w, off) ==> FoundIn(v, [], found, w.found))
  {
  }

  lemma WalkStep(v: seq<Byte>, off: nat, end: nat, i: nat, ech: bool, found: Option<Found>, typ: nat, elen: nat)
    requires i <= MAX_EXTS && off + 4 + elen <= end
    requires off + 4 <= |v| ==> Rd16(v, off) == typ && Rd16(v, off + 2) == elen
    ensures var at := off + 4; var w := Walk(v, off, end, i, ech, found);
            && (i == MAX_EXTS || at > |v| ==> !Clean(w, end))
            && (i < MAX_EXTS && at <= |v| && typ != SERVER_NAME ==> w == Walk(v, at + elen, end, i + 1, ech || typ == ECH, found))
            && (i < MAX_EXTS && at <= |v| && typ == SERVER_NAME ==>
                  if found.None? && at + elen <= |v| && IsServerNames(v[at..at + elen])
                  then elen >= 6 && w == Walk(v, at + elen, end, i + 1, ech, Some(Found(at + 5, elen - 5)))
                  else !Clean(w, end))
  {
    hide Rd16;
  }

  lemma FoundStep(v: seq<Byte>, es: seq<Ext>, found: Option<Found>, w: WalkEnd, end: nat)
    requires es != [] && es[0].typ != SERVER_NAME
    ensures Clean(w, end) && FoundIn(v, es[1..], found, w.found) ==> FoundIn(v, es, found, w.found)
  {
  }

  lemma FoundName(v: seq<Byte>, es: seq<Ext>, here: Found, w: WalkEnd, end: nat)
    requires es != [] && es[0].typ == SERVER_NAME && |es[0].data| >= 5
    requires here.at + here.n <= |v| && v[here.at..here.at + here.n] == es[0].data[5..]
    ensures Clean(w, end) && FoundIn(v, es[1..], Some(here), w.found) ==> FoundIn(v, es, None, w.found)
  {
  }

  predicate CleanList(n: nat, off: nat, es: seq<Ext>, i: nat, ech: bool, found: bool) {
    && !ech && i + |es| <= MAX_EXTS && NoEch(es) && WithinExts(n, off, es)
    && (if found then NamesOf(es) == [] else |NamesOf(es)| == 0 || (|NamesOf(es)| == 1 && IsServerNames(NamesOf(es)[0])))
  }

  ghost predicate FoundIn(v: seq<Byte>, es: seq<Ext>, found: Option<Found>, found': Option<Found>) {
    if found.Some? || NamesOf(es) == [] then found' == found
    else found'.Some? && var f := found'.value;
         f.at + f.n <= |v| && |NamesOf(es)[0]| >= 5 && v[f.at..f.at + f.n] == NamesOf(es)[0][5..]
  }

  // ---- The whole hello ----

  // The header of a printed hello is read as what was printed, once all of it is there.
  lemma HeaderOf(v: seq<Byte>, h: ClientHello)
    requires Copied(v, h)
    ensures h.exts.Some? ==> ValidExts(h.exts.value)
    ensures h.exts.Some? && ExtsStart(h) <= |v| ==>
              && Header(v) == Extensions(ExtsStart(h), ExtsStart(h) + |PrintExts(h.exts.value)|)
              && Agrees(v, ExtsStart(h), PrintExts(h.exts.value))
    ensures Header(v).Extensions? ==> h.exts.Some? && ExtsStart(h) <= |v|
  {
    hide Agrees, Copied, Valid, U16, U24, Vectors, Rd16, Rd8, Header, ValidExts, PrintExts;
    BodyEnd(v, h);
    FrontFields(v, h);
    VectorFields(v, h);
    hide BodyLen;
    if |v| >= 9 {
      HeaderStart(v, h.recLen, BodyLen(h));
      VectorsOf(v, 9 + BodyLen(h), |h.session|, |h.ciphers|, |h.methods|, if h.exts.Some? then Some(|PrintExts(h.exts.value)|) else None);
    } else {
      TooShort(v);
    }
  }

  lemma TooShort(v: seq<Byte>)
    requires |v| < 9
    ensures Header(v) == Stop(NotClientHello)
  {
  }

  lemma HeaderStart(v: seq<Byte>, recLen: nat, bodyLen: nat)
    requires |v| >= 9 && v[0] == 0x16 && v[1] == 3 && v[5] == 1 && Rd16(v, 3) == recLen
    requires Rd8(v, 6) * 0x1_0000 + Rd16(v, 7) == bodyLen && 9 + bodyLen <= 5 + recLen
    ensures Header(v) == Vectors(v, 9 + bodyLen)
  {
    hide Rd16, Vectors;
  }

  lemma BodyEnd(v: seq<Byte>, h: ClientHello)
    requires Copied(v, h)
    ensures h.exts.Some? ==> ValidExts(h.exts.value) && |PrintExts(h.exts.value)| < 0x1_0000
    ensures 9 + BodyLen(h) == if h.exts.Some? then ExtsStart(h) + |PrintExts(h.exts.value)| else ExtsStart(h) - 2
    ensures 9 + BodyLen(h) <= 5 + h.recLen
  {
    hide Agrees, PrintExts, ValidExts;
  }

  lemma VectorsOf(v: seq<Byte>, hsEnd: nat, session: nat, ciphers: nat, methods: nat, exts: Option<nat>)
    requires var o3 := 44 + session + 2 + ciphers + 1 + methods; hsEnd == if exts.Some? then o3 + 2 + exts.value else o3
    requires |v| >= 44 ==> Rd8(v, 43) == session
    requires var o1 := 44 + session; |v| >= o1 + 2 ==> Rd16(v, o1) == ciphers
    requires var o2 := 44 + session + 2 + ciphers; |v| >= o2 + 1 ==> Rd8(v, o2) == methods
    requires var o3 := 44 + session + 2 + ciphers + 1 + methods; exts.Some? && |v| >= o3 + 2 ==> Rd16(v, o3) == exts.value
    ensures var start := 44 + session + 2 + ciphers + 1 + methods + 2;
            && (exts.Some? && start <= |v| ==> Vectors(v, hsEnd) == Extensions(start, start + exts.value))
            && (Vectors(v, hsEnd).Extensions? ==> exts.Some? && start <= |v|)
  {
    hide Rd8, Rd16;
  }

  lemma FrontParts(v: seq<Byte>, h: ClientHello)
    requires Copied(v, h)
    ensures Valid(h) && (h.exts.Some? ==> ValidExts(h.exts.value) && |PrintExts(h.exts.value)| < 0x1_0000)
    ensures BodyLen(h) < 0x100_0000
    ensures Agrees(v, 0, [0x16, 0x03, h.minor] + (U16(h.recLen) + ([0x01] + (U24(BodyLen(h)) + (h.random + PrintVectors(h))))))
    ensures |h.random| == 34 && h.recLen < 0x1_0000
  {
    hide Agrees, U16, U24, PrintVectors, ValidExts, ExtsPart, PrintExts;
  }

  // The fields of a printed hello, each as far as it is there.
  lemma FrontFields(v: seq<Byte>, h: ClientHello)
    requires Copied(v, h)
    ensures |v| >= 9 ==> v[0] == 0x16 && v[1] == 3 && v[5] == 1 && Rd16(v, 3) == h.recLen
                         && Rd8(v, 6) * 0x1_0000 + Rd16(v, 7) == BodyLen(h)
    ensures Valid(h) && Agrees(v, 43, PrintVectors(h))
  {
    hide *;
    FrontParts(v, h);
    var p2 := h.random + PrintVectors(h);
    AgreesJoin(v, 0, [0x16, 0x03, h.minor], U16(h.recLen), [0x01], U24(BodyLen(h)) + p2);
    AgreesSplit(v, 6, U24(BodyLen(h)), p2);
    AgreesSplit(v, 9, h.random, PrintVectors(h));
    if |v| >= 9 {
      ReadU16(v, 3, h.recLen);
      FirstBytes(v, h.minor, BodyLen(h));
    }
  }

  lemma VectorFields(v: seq<Byte>, h: ClientHello)
    requires Valid(h) && Agrees(v, 43, PrintVectors(h))
    ensures |v| >= 44 ==> Rd8(v, 43) == |h.session|
    ensures var o1 := 44 + |h.session|; |v| >= o1 + 2 ==> Rd16(v, o1) == |h.ciphers|
    ensures var o2 := 44 + |h.session| + 2 + |h.ciphers|; |v| >= o2 + 1 ==> Rd8(v, o2) == |h.methods|
    ensures var o3 := 44 + |h.session| + 2 + |h.ciphers| + 1 + |h.methods|;
            h.exts.Some? && |v| >= o3 + 2 ==> Rd16(v, o3) == |PrintExts(h.exts.value)| && Agrees(v, o3 + 2, PrintExts(h.exts.value))
  {
    var e := ExtsPart(h);
    var p8 := h.ciphers + ([|h.methods|] + (h.methods + e));
    hide Agrees, U16, ValidExts, Rd16, PrintExts;
    AgreesJoin(v, 43, [|h.session|], h.session, U16(|h.ciphers|), p8);
    var o1 := 44 + |h.session|;
    AgreesJoin(v, o1 + 2, h.ciphers, [|h.methods|], h.methods, e);
    var o2 := o1 + 2 + |h.ciphers|;
    var o3 := o2 + 1 + |h.methods|;
    if |v| >= 44 {
      FirstByte(v, 43, |h.session|);
    }
    if |v| >= o1 + 2 {
      ReadU16(v, o1, |h.ciphers|);
    }
    if |v| >= o2 + 1 {
      FirstByte(v, o2, |h.methods|);
    }
    if h.exts.Some? {
      AgreesSplit(v, o3, U16(|PrintExts(h.exts.value)|), PrintExts(h.exts.value));
      if |v| >= o3 + 2 {
        ReadU16(v, o3, |PrintExts(h.exts.value)|);
      }
    }
  }

  lemma FirstByte(v: seq<Byte>, off: nat, b: Byte)
    requires Agrees(v, off, [b]) && off < |v|
    ensures v[off] == b
  {
    assert v[off + 0] == [b][0];
  }

  lemma FirstBytes(v: seq<Byte>, minor: Byte, bodyLen: nat)
    requires bodyLen < 0x100_0000 && |v| >= 9
    requires Agrees(v, 0, [0x16, 0x03, minor]) && Agrees(v, 5, [0x01]) && Agrees(v, 6, U24(bodyLen))
    ensures v[0] == 0x16 && v[1] == 3 && v[5] == 1 && Rd8(v, 6) * 0x1_0000 + Rd16(v, 7) == bodyLen
  {
    var a: seq<Byte>, b := [0x16, 0x03, minor], U24(bodyLen);
    assert v[0 + 0] == a[0] && v[0 + 1] == a[1];
    FirstByte(v, 5, 0x01);
    assert v[6 + 0] == b[0] && v[6 + 1] == b[1] && v[6 + 2] == b[2];
  }

  lemma VerdictSeen(v: seq<Byte>, end: nat, w: WalkEnd, host: string)
    ensures Verdict(v, end, w) == Parsed(Seen, host) <==>
              Clean(w, end) && w.found.Some? && w.found.value.at + w.found.value.n <= |v|
              && HostOf(v[w.found.value.at..w.found.value.at + w.found.value.n]) == Some(host)
  {
    hide HostOf;
  }

  lemma {:induction false} NamesAreLists(h: ClientHello, host: string, n: nat)
    ensures Names(h, host) && Within(n, h) <==>
              && h.exts.Some? && CleanList(n, ExtsStart(h), h.exts.value, 0, false, false) && NamesOf(h.exts.value) != []
              && |NamesOf(h.exts.value)[0]| >= 5 && HostOf(NamesOf(h.exts.value)[0][5..]) == Some(host)
    ensures Names(h, host) && Within(n, h) ==> ExtsStart(h) + 4 <= n
  {
    hide HostOf, NoEch;
  }

  lemma HeaderNeverSeen(v: seq<Byte>, host: string)
    ensures Header(v) != Stop(Parsed(Seen, host))
  {
  }

  lemma ParsesExtensions(v: seq<Byte>, h: ClientHello)
    requires Copied(v, h) && h.exts.Some? && ExtsStart(h) <= |v|
    ensures ValidExts(h.exts.value)
    ensures var start := ExtsStart(h); var end := start + |PrintExts(h.exts.value)|;
            ParseHello(v) == Verdict(v, end, Walk(v, start, end, 0, false, None)) && Agrees(v, start, PrintExts(h.exts.value))
  {
    hide Header, Walk, Verdict, Copied, Agrees, ExtsStart, PrintExts, ValidExts;
    HeaderOf(v, h);
    ParsesFrom(v, ExtsStart(h), ExtsStart(h) + |PrintExts(h.exts.value)|);
  }

  lemma ParsesFrom(v: seq<Byte>, start: nat, end: nat)
    requires Header(v) == Extensions(start, end)
    ensures ParseHello(v) == Verdict(v, end, Walk(v, start, end, 0, false, None))
  {
    hide Header, Walk, Verdict;
  }

  lemma ParsesNothing(v: seq<Byte>, h: ClientHello, host: string)
    requires Copied(v, h) && !(h.exts.Some? && ExtsStart(h) <= |v|)
    ensures ParseHello(v) != Parsed(Seen, host)
  {
    HeaderOf(v, h);
    HeaderNeverSeen(v, host);
    hide Header, Walk, Verdict, Copied, Agrees, ExtsStart;
  }

  // Of any ClientHello, and whatever part of it was copied: the parser says SEEN and a host exactly when the
  // hello names that host and what decides it was copied.
  lemma SeenExactly(v: seq<Byte>, h: ClientHello, host: string)
    requires Copied(v, h)
    ensures ParseHello(v) == Parsed(Seen, host) <==> Names(h, host) && Within(|v|, h)
    ensures ParseHello(v) == Parsed(Seen, host) <==> NamesHost(h, host) && Within(|v|, h)
  {
    hide *;
    NamesExactly(h, host);
    NamesAreLists(h, host, |v|);
    if h.exts.Some? && ExtsStart(h) <= |v| {
      ParsesExtensions(v, h);
      ListSeen(v, ExtsStart(h), h.exts.value, host);
    } else {
      ParsesNothing(v, h, host);
    }
  }

  lemma ListSeen(v: seq<Byte>, start: nat, es: seq<Ext>, host: string)
    requires ValidExts(es) && Agrees(v, start, PrintExts(es))
    ensures var end := start + |PrintExts(es)|;
            Verdict(v, end, Walk(v, start, end, 0, false, None)) == Parsed(Seen, host) <==>
              && CleanList(|v|, start, es, 0, false, false) && NamesOf(es) != []
              && |NamesOf(es)[0]| >= 5 && HostOf(NamesOf(es)[0][5..]) == Some(host)
  {
    hide Walk, PrintExts, Agrees, HostOf, Verdict, NamesOf, Clean, ValidExts, CleanList;
    var end := start + |PrintExts(es)|;
    var w := Walk(v, start, end, 0, false, None);
    WalkExts(v, start, es, 0, false, None);
    VerdictSeen(v, end, w, host);
  }

  // ---- Only a hello is SEEN ----

  // The extensions a clean walk went over, with zeros for what was not copied.
  lemma {:induction false} WalkedOver(v: seq<Byte>, off: nat, end: nat, i: nat, ech: bool, found: Option<Found>) returns (es: seq<Ext>)
    requires i <= MAX_EXTS && off <= end && Clean(Walk(v, off, end, i, ech, found), end)
    requires forall k :: 0 <= k < |v| ==> v[k] < 256
    ensures ValidExts(es) && |PrintExts(es)| == end - off && Agrees(v, off, PrintExts(es))
    decreases MAX_EXTS - i
  {
    es := [];
    if off < end {
      var typ, elen, at := Rd16(v, off), Rd16(v, off + 2), off + 4;
      var data: seq<Byte> := seq(elen, k requires 0 <= k < elen => if at + k < |v| then v[at + k] else 0);
      var rest := WalkedOver(v, at + elen, end, i + 1, ech || typ == ECH,
                             if typ == SERVER_NAME then Some(Found(at + 5, elen - 5)) else found);
      es := [Ext(typ, data)] + rest;
      assert es[1..] == rest;
      Prepend(v, off, Ext(typ, data), rest);
    }
  }

  lemma Prepend(v: seq<Byte>, off: nat, e: Ext, rest: seq<Ext>)
    requires e.typ < 0x1_0000 && |e.data| < 0x1_0000 && ValidExts(rest) && off + 4 <= |v|
    requires Rd16(v, off) == e.typ && Rd16(v, off + 2) == |e.data|
    requires Agrees(v, off + 4, e.data) && Agrees(v, off + 4 + |e.data|, PrintExts(rest))
    ensures var es := [e] + rest; ValidExts(es) && |PrintExts(es)| == 4 + |e.data| + |PrintExts(rest)| && Agrees(v, off, PrintExts(es))
  {
    var es := [e] + rest;
    assert es[1..] == rest && es[0] == e;
    assert PrintExts(es) == U16(e.typ) + (U16(|e.data|) + (e.data + PrintExts(rest)));
    AgreesRead(v, off, e.typ);
    AgreesRead(v, off + 2, |e.data|);
    hide PrintExts, Agrees, U16, Rd16;
    AgreesSplit(v, off, U16(e.typ), U16(|e.data|) + (e.data + PrintExts(rest)));
    AgreesSplit(v, off + 2, U16(|e.data|), e.data + PrintExts(rest));
    AgreesSplit(v, off + 4, e.data, PrintExts(rest));
  }

  lemma AgreesRead(v: seq<Byte>, off: nat, n: nat)
    requires off + 2 <= |v| && n < 0x1_0000 && Rd16(v, off) == n
    ensures Agrees(v, off, U16(n))
  {
    U16Read(v, off);
  }

  // What is SEEN is a ClientHello (completed with zeros where it was cut) that names the host.
  lemma SeenIsHello(v: seq<Byte>, host: string) returns (h: ClientHello)
    requires ParseHello(v) == Parsed(Seen, host)
    ensures Copied(v, h) && Names(h, host) && NamesHost(h, host) && Within(|v|, h)
  {
    HeaderNeverSeen(v, host);
    var head := Header(v);
    VerdictSeen(v, head.end, Walk(v, head.start, head.end, 0, false, None), host);
    var es := WalkedOver(v, head.start, head.end, 0, false, None);
    h := HelloOf(v, es);
    SeenExactly(v, h, host);
  }

  // And it is a handshake record with a ClientHello in it, by its first bytes.
  lemma SeenStarts(v: seq<Byte>, host: string)
    requires ParseHello(v) == Parsed(Seen, host)
    ensures |v| >= 44 && v[0] == 22 && v[1] == 3 && v[5] == 1
    ensures var hi: nat, mid: nat, lo: nat, high: nat, low: nat := v[6], v[7], v[8], v[3], v[4];
            4 + hi * 65536 + mid * 256 + lo <= high * 256 + low
  {
    hide HostOf, Walk, Verdict;
    HeaderNeverSeen(v, host);
  }

  // The hello whose header was read, with the given extensions.
  lemma HelloOf(v: seq<Byte>, es: seq<Ext>) returns (h: ClientHello)
    requires Header(v).Extensions? && ValidExts(es)
    requires var head := Header(v); |PrintExts(es)| == head.end - head.start && Agrees(v, head.start, PrintExts(es))
    ensures Copied(v, h)
  {
    var o1 := 44 + Rd8(v, 43);
    var o2 := o1 + 2 + Rd16(v, o1);
    var o3 := o2 + 1 + Rd8(v, o2);
    h := ClientHello(v[2], Rd16(v, 3), v[9..43], v[44..o1], v[o1 + 2..o2], v[o2 + 1..o3], Some(es));
    assert BodyLen(h) == Rd8(v, 6) * 0x1_0000 + Rd16(v, 7);
    assert Valid(h);
    SliceAgrees(v, 9, 43);
    FrontAgrees(v, h.minor, BodyLen(h));
    AgreesRead(v, 3, h.recLen);
    ExtsAgree(v, o3, es);
    hide PrintExts, Header, Rd8, Rd16, BodyLen, ValidExts;
    VectorsAgree(v, h, o1, o2, o3);
    PrintAgrees(v, h);
  }

  lemma ExtsAgree(v: seq<Byte>, o3: nat, es: seq<Ext>)
    requires ValidExts(es) && o3 + 2 <= |v| && Rd16(v, o3) == |PrintExts(es)| && Agrees(v, o3 + 2, PrintExts(es))
    ensures |PrintExts(es)| < 0x1_0000 && Agrees(v, o3, U16(|PrintExts(es)|) + PrintExts(es))
  {
    AgreesRead(v, o3, |PrintExts(es)|);
    AgreesSplit(v, o3, U16(|PrintExts(es)|), PrintExts(es));
  }

  lemma PrintAgrees(v: seq<Byte>, h: ClientHello)
    requires Valid(h) && Agrees(v, 0, [0x16, 0x03, h.minor]) && Agrees(v, 3, U16(h.recLen)) && Agrees(v, 5, [0x01])
    requires Agrees(v, 6, U24(BodyLen(h))) && Agrees(v, 9, h.random) && Agrees(v, 43, PrintVectors(h))
    ensures Copied(v, h)
  {
    hide Agrees, U16, U24, PrintVectors, BodyLen, ExtsPart, ValidExts;
    AgreesSplit(v, 9, h.random, PrintVectors(h));
    AgreesSplit(v, 6, U24(BodyLen(h)), h.random + PrintVectors(h));
    AgreesJoin(v, 0, [0x16, 0x03, h.minor], U16(h.recLen), [0x01], U24(BodyLen(h)) + (h.random + PrintVectors(h)));
  }

  lemma FrontAgrees(v: seq<Byte>, minor: Byte, bodyLen: nat)
    requires |v| >= 9 && v[0] == 0x16 && v[1] == 3 && v[2] == minor && v[5] == 1
    requires Rd8(v, 6) * 0x1_0000 + Rd16(v, 7) == bodyLen < 0x100_0000
    ensures Agrees(v, 0, [0x16, 0x03, minor]) && Agrees(v, 5, [0x01]) && Agrees(v, 6, U24(bodyLen))
  {
    U24Read(v, 6);
    hide U24, Rd8, Rd16;
  }

  lemma VectorsAgree(v: seq<Byte>, h: ClientHello, o1: nat, o2: nat, o3: nat)
    requires Valid(h) && o1 == 44 + |h.session| && o2 == o1 + 2 + |h.ciphers| && o3 == o2 + 1 + |h.methods| && o3 <= |v|
    requires Rd8(v, 43) == |h.session| && v[44..o1] == h.session && Rd16(v, o1) == |h.ciphers| && v[o1 + 2..o2] == h.ciphers
    requires Rd8(v, o2) == |h.methods| && v[o2 + 1..o3] == h.methods && Agrees(v, o3, ExtsPart(h))
    ensures Agrees(v, 43, PrintVectors(h))
  {
    var e := ExtsPart(h);
    var p8 := h.ciphers + ([|h.methods|] + (h.methods + e));
    assert Agrees(v, o1 + 2, p8) by {
      SliceAgrees(v, o1 + 2, o2);
      SliceAgrees(v, o2 + 1, o3);
      ByteAgrees(v, o2);
      hide Agrees, ExtsPart, Valid;
      AgreesJoin(v, o1 + 2, h.ciphers, [|h.methods|], h.methods, e);
    }
    assert Agrees(v, 43, [|h.session|] + (h.session + (U16(|h.ciphers|) + p8))) by {
      SliceAgrees(v, 44, o1);
      ByteAgrees(v, 43);
      AgreesRead(v, o1, |h.ciphers|);
      hide Agrees, ExtsPart, Valid, U16;
      AgreesJoin(v, 43, [|h.session|], h.session, U16(|h.ciphers|), p8);
    }
    hide Agrees, ExtsPart, Valid, U16;
  }

  lemma ByteAgrees(v: seq<Byte>, off: nat)
    requires off < |v|
    ensures Agrees(v, off, [Rd8(v, off)])
  {
  }

  lemma SliceAgrees(v: seq<Byte>, from: nat, to: nat)
    requires from <= to <= |v|
    ensures Agrees(v, from, v[from..to])
  {
  }

  // ---- tls_parse_sni ----

  // sni_idx: an offset masked to the buffer.
  function SniIdx(off: nat): (i: nat)
    ensures i < BUF_LEN && (off < BUF_LEN ==> i == off)
  {
    off % BUF_LEN
  }

  // One byte and two, read through the mask. `len` bounds every read, so the mask never changes an offset.
  method SniRd8(buf: array<Byte>, len: nat, off: nat) returns (n: nat)
    requires buf.Length == BUF_LEN && off < len <= BUF_LEN
    ensures n == Rd8(buf[..len], off)
  {
    n := buf[SniIdx(off)];
  }

  method SniRd16(buf: array<Byte>, len: nat, off: nat) returns (n: nat)
    requires buf.Length == BUF_LEN && off + 2 <= len <= BUF_LEN
    ensures n == Rd16(buf[..len], off)
  {
    var high: nat, low: nat := buf[SniIdx(off)], buf[SniIdx(off + 1)];
    n := high * 256 + low;
  }

  method ReadHeader(buf: array<Byte>, len: nat) returns (head: Head)
    requires buf.Length == BUF_LEN && len <= BUF_LEN
    ensures head == Header(buf[..len])
  {
    hide Rd16;
    if len < 9 {
      return Stop(NotClientHello);
    }
    if buf[0] != 0x16 || buf[1] != 0x03 || buf[5] != 0x01 {
      return Stop(NotClientHello);
    }
    var recLen := SniRd16(buf, len, 3);
    var high := SniRd8(buf, len, 6);
    var low := SniRd16(buf, len, 7);
    var recEnd, hsEnd := 5 + recLen, 9 + (high * 0x1_0000 + low);
    if hsEnd > recEnd {
      return Stop(Fails(Malformed));
    }
    var off := 9 + 2 + 32;
    if off + 1 > len {
      return Stop(Fails(Truncated));
    }
    var n := SniRd8(buf, len, off);
    off := off + 1 + n;
    if off + 2 > len {
      return Stop(Fails(Truncated));
    }
    n := SniRd16(buf, len, off);
    off := off + 2 + n;
    if off + 1 > len {
      return Stop(Fails(Truncated));
    }
    n := SniRd8(buf, len, off);
    off := off + 1 + n;
    if off > hsEnd {
      return Stop(Fails(Malformed));
    }
    if off == hsEnd {
      return Stop(Fails(Absent));
    }
    if off + 2 > len {
      return Stop(Fails(Truncated));
    }
    n := SniRd16(buf, len, off);
    var extEnd := off + 2 + n;
    if extEnd != hsEnd {
      return Stop(Fails(Malformed));
    }
    off := off + 2;
    head := Extensions(off, extEnd);
  }

  // The extensions; `Invalid` is a return with MALFORMED.
  method WalkExtensions(buf: array<Byte>, len: nat, start: nat, extEnd: nat) returns (w: WalkEnd)
    requires buf.Length == BUF_LEN && len <= BUF_LEN
    ensures w == Walk(buf[..len], start, extEnd, 0, false, None)
  {
    hide Rd16;
    var off: nat, ech, found, truncated := start, false, None, false;
    ghost var v := buf[..len];
    var i := 0;
    while i < MAX_EXTS
      invariant 0 <= i <= MAX_EXTS && !truncated
      invariant Walk(v, start, extEnd, 0, false, None) == Walk(v, off, extEnd, i, ech, found)
    {
      if off >= extEnd {
        return Walked(off, ech, truncated, found);
      }
      if off + 4 > extEnd {
        return Invalid;
      }
      if off + 4 > len {
        truncated := true;
        return Walked(off, ech, truncated, found);
      }
      var typ := SniRd16(buf, len, off);
      var elen := SniRd16(buf, len, off + 2);
      off := off + 4;
      if off + elen > extEnd {
        return Invalid;
      }
      if typ == ECH {
        ech := true;
      }
      if typ == SERVER_NAME {
        if found.Some? {
          return Invalid;
        }
        if off + elen > len {
          truncated := true;
          return Walked(off, ech, truncated, found);
        }
        if elen < 5 {
          return Invalid;
        }
        var listLen := SniRd16(buf, len, off);
        var nameType := SniRd8(buf, len, off + 2);
        var n := SniRd16(buf, len, off + 3);
        DataReads(v, off, elen);
        if listLen != elen - 2 || nameType != 0 {
          return Invalid;
        }
        if n == 0 || n + 5 != elen || n >= MAX_HOST_LEN {
          return Invalid;
        }
        found := Some(Found(off + 5, n));
      }
      off := off + elen;
      i := i + 1;
    }
    w := Walked(off, ech, truncated, found);
  }

  lemma DataReads(v: seq<Byte>, at: nat, elen: nat)
    requires elen >= 5 && at + elen <= |v|
    ensures var data := v[at..at + elen];
            Rd16(data, 0) == Rd16(v, at) && data[2] == Rd8(v, at + 2) && Rd16(data, 3) == Rd16(v, at + 3)
  {
  }

  // The copy of the name to host_out.
  method CopyHost(buf: array<Byte>, len: nat, nameOff: nat, n: nat) returns (host: Option<string>)
    requires buf.Length == BUF_LEN && len <= BUF_LEN && nameOff + n <= len && 1 <= n < MAX_HOST_LEN
    ensures host == HostOf(buf[..len][nameOff..nameOff + n])
  {
    ghost var name := buf[..len][nameOff..nameOff + n];
    ghost var low := LowerAll(name);
    var out := new Byte[MAX_HOST_LEN](_ => 0);
    var j := 0;
    while j < n
      invariant 0 <= j <= n
      invariant forall k :: 0 <= k < j ==> out[k] == low[k] && HostByte(low[k])
    {
      var c: Byte := buf[SniIdx(nameOff + j)];
      assert c == name[j];
      c := Lower(c);
      if !HostByte(c) {
        assert !HostByte(low[j]);
        return None;
      }
      out[j] := c;
      j := j + 1;
    }
    var m := n;
    if out[n - 1] == 0x2e {
      out[n - 1] := 0;
      m := n - 1;
    }
    if m == 0 {
      return None;
    }
    assert out[..m] == low[..m];
    assert low[..n] == low;
    host := Some(Text(out[..m]));
  }

  // tls_parse_sni
  method TlsParseSni(buf: array<Byte>, length: nat) returns (p: Parse)
    requires buf.Length == BUF_LEN
    ensures p == ParseHello(buf[..if length > BUF_LEN then BUF_LEN else length])
  {
    hide Header, Walk, HostOf;
    var len := if length > BUF_LEN then BUF_LEN else length;
    var head := ReadHeader(buf, len);
    if head.Stop? {
      return head.p;
    }
    var w := WalkExtensions(buf, len, head.start, head.end);
    if w.Invalid? {
      return Fails(Malformed);
    }
    if w.ech {
      return Fails(Ech);
    }
    if w.truncated {
      return Fails(Truncated);
    }
    if w.off < head.end {
      return Fails(Malformed);
    }
    if w.found.None? {
      return Fails(Absent);
    }
    FoundInBounds(buf[..len], head.start, head.end, 0, false, None);
    var host := CopyHost(buf, len, w.found.value.at, w.found.value.n);
    p := if host.None? then Fails(Malformed) else Parsed(Seen, host.value);
  }

  lemma {:induction false} FoundInBounds(v: seq<Byte>, off: nat, end: nat, i: nat, ech: bool, found: Option<Found>)
    requires i <= MAX_EXTS && (found.Some? ==> found.value.at + found.value.n <= |v| && 1 <= found.value.n < MAX_HOST_LEN)
    ensures var w := Walk(v, off, end, i, ech, found);
            w.Walked? && w.found.Some? ==> w.found.value.at + w.found.value.n <= |v| && 1 <= w.found.value.n < MAX_HOST_LEN
    decreases MAX_EXTS - i
  {
    hide Rd16;
    if i < MAX_EXTS && off + 4 <= end && off + 4 <= |v| {
      var typ, elen, at := Rd16(v, off), Rd16(v, off + 2), off + 4;
      if typ != SERVER_NAME {
        FoundInBounds(v, at + elen, end, i + 1, ech || typ == ECH, found);
      } else if found.None? && at + elen <= |v| && IsServerNames(v[at..at + elen]) {
        FoundInBounds(v, at + elen, end, i + 1, ech, Some(Found(at + 5, elen - 5)));
      }
    }
  }
}
