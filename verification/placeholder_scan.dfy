/** Finding the placeholders of a TLS write and staging their rewrites. */
module PlaceholderScan {
  import opened GF128Bytes
  import opened Arithmetic
  import opened RecordPatch
  import opened Substitution

  const MAX_DATA_SIZE := 256
  const SECRET_KEY_LEN := 8
  const CHUNK_STRIDE := 249
  const MAX_MATCHES := 4

  // bpf_loop refuses to run more iterations than this, and then runs none: the longest write it scans.
  const BPF_MAX_LOOPS := 8388608
  const MAX_SCAN := BPF_MAX_LOOPS * CHUNK_STRIDE

  // A placeholder found in a write: where, and its first 8 bytes.
  datatype Match = Match(pos: nat, key: seq<bv8>)

  // "kl::", in the clear or as the stable bytes of its HPACK Huffman code.
  predicate IsPrefix(b: seq<bv8>)
    requires |b| == SECRET_KEY_LEN
  {
    (b[0] == 0x6b && b[1] == 0x6c && b[2] == 0x3a && b[3] == 0x3a) || (b[0] == 0xeb && b[1] == 0x45 && b[2] == 0xcb)
  }

  // The matches of a flat scan at positions lo..hi-1, in order.
  function FlatScan(data: seq<bv8>, lo: nat, hi: nat): (r: seq<Match>)
    requires hi > lo ==> hi + SECRET_KEY_LEN - 1 <= |data|
    decreases hi - lo
  {
    if hi <= lo then []
    else FlatScan(data, lo, hi - 1) + MatchAt(data, hi - 1)
  }

  function MatchAt(data: seq<bv8>, p: nat): (r: seq<Match>)
    requires p + SECRET_KEY_LEN <= |data|
  {
    var key := data[p..p + SECRET_KEY_LEN];
    if IsPrefix(key) then [Match(p, key)] else []
  }

  function Limit(n: nat): (r: nat) {
    if n >= SECRET_KEY_LEN then n - SECRET_KEY_LEN + 1 else 0
  }

  function Take<T>(s: seq<T>, n: nat): (r: seq<T>)
    ensures |r| <= n && r <= s
  {
    if |s| <= n then s else s[..n]
  }

  // The chunk at offset, read into the scratch buffer and scanned up to its last whole key.
  method ScanChunk(data: seq<bv8>, offset: nat, found: seq<Match>) returns (matches: seq<Match>)
    requires offset < |data| && |found| < MAX_MATCHES
    requires found == Take(FlatScan(data, 0, Min(offset, Limit(|data|))), MAX_MATCHES)
    ensures matches == Take(FlatScan(data, 0, Min(offset + CHUNK_STRIDE, Limit(|data|))), MAX_MATCHES)
  {
    hide IsPrefix, FlatScan;
    matches := found;
    var readLen := |data| - offset;
    if readLen > MAX_DATA_SIZE {
      readLen := MAX_DATA_SIZE;
    }
    var chunk := data[offset..offset + readLen];
    var scanLimit := Limit(readLen);
    if scanLimit == 0 {
      return;
    }
    var i := 0;
    while i < scanLimit && |matches| < MAX_MATCHES
      invariant 0 <= i <= scanLimit
      invariant matches == Take(FlatScan(data, 0, offset + i), MAX_MATCHES)
      invariant |matches| < MAX_MATCHES ==> matches == FlatScan(data, 0, offset + i)
    {
      SliceOfSlice(data, offset, readLen, i);
      ScanStep(data, offset + i);
      if IsPrefix(chunk[i..i + SECRET_KEY_LEN]) {
        matches := matches + [Match(offset + i, chunk[i..i + SECRET_KEY_LEN])];
      }
      i := i + 1;
    }
    MoreMatches(data, offset + i, offset + scanLimit);
  }

  lemma SliceOfSlice(data: seq<bv8>, offset: nat, n: nat, i: nat)
    requires offset + n <= |data| && i + SECRET_KEY_LEN <= n
    ensures data[offset..offset + n][i..i + SECRET_KEY_LEN] == data[offset + i..offset + i + SECRET_KEY_LEN]
  {
    var s, t := data[offset..offset + n][i..i + SECRET_KEY_LEN], data[offset + i..offset + i + SECRET_KEY_LEN];
    assert forall k :: 0 <= k < SECRET_KEY_LEN ==> s[k] == t[k];
  }

  lemma ScanStep(data: seq<bv8>, p: nat)
    requires p + SECRET_KEY_LEN <= |data|
    ensures FlatScan(data, 0, p + 1) == FlatScan(data, 0, p) + MatchAt(data, p)
  {
  }

  method PrescanChunk(data: seq<bv8>, chunkIdx: nat, found: seq<Match>) returns (matches: seq<Match>, stop: bool)
    requires |data| < TWO32
    requires found == Take(FlatScan(data, 0, Min(chunkIdx * CHUNK_STRIDE, Limit(|data|))), MAX_MATCHES)
    ensures matches == Take(FlatScan(data, 0, Min((chunkIdx + 1) * CHUNK_STRIDE, Limit(|data|))), MAX_MATCHES)
    ensures stop ==> matches == Take(FlatScan(data, 0, Limit(|data|)), MAX_MATCHES)
  {
    matches, stop := found, true;
    var offset := chunkIdx * CHUNK_STRIDE;
    if offset >= |data| {
      return;
    }
    if |matches| >= MAX_MATCHES {
      MoreMatches(data, Min(offset, Limit(|data|)), Min(offset + CHUNK_STRIDE, Limit(|data|)));
      MoreMatches(data, Min(offset, Limit(|data|)), Limit(|data|));
      return;
    }
    stop := false;
    matches := ScanChunk(data, offset, found);
  }

  function Min(a: nat, b: nat): (r: nat) {
    if a < b then a else b
  }

  // Once four are found, scanning on changes nothing.
  lemma {:induction false} MoreMatches(data: seq<bv8>, lo: nat, hi: nat)
    requires lo <= hi && (hi > 0 ==> hi + SECRET_KEY_LEN - 1 <= |data|)
    ensures FlatScan(data, 0, lo) <= FlatScan(data, 0, hi)
    ensures |FlatScan(data, 0, lo)| >= MAX_MATCHES ==>
              Take(FlatScan(data, 0, lo), MAX_MATCHES) == Take(FlatScan(data, 0, hi), MAX_MATCHES)
    decreases hi - lo
  {
    if lo < hi {
      MoreMatches(data, lo, hi - 1);
    }
  }

  // The number of chunks, a 32-bit word.
  function NumChunks(n: nat): (r: nat) {
    ((n + CHUNK_STRIDE - 1) % TWO32) / CHUNK_STRIDE
  }

  // The loop runs, and then over the whole write, exactly up to MAX_SCAN; for the last lengths below 2^32 the
  // count wraps to none.
  lemma ChunksCover(n: nat)
    requires n < TWO32
    ensures n <= MAX_SCAN ==> NumChunks(n) <= BPF_MAX_LOOPS && NumChunks(n) * CHUNK_STRIDE >= n
    ensures n > MAX_SCAN ==> NumChunks(n) > BPF_MAX_LOOPS || NumChunks(n) == 0
  {
  }

  // What the hooks take for the write: its length as a 32-bit word.
  function Measured(data: seq<bv8>): (d: seq<bv8>)
    ensures |data| < TWO32 ==> d == data
  {
    data[..|data| % TWO32]
  }

  function FirstMatches(data: seq<bv8>): (r: seq<Match>) {
    Take(FlatScan(data, 0, Limit(|data|)), MAX_MATCHES)
  }

  // The first four matches of a flat scan of the write as measured, or nothing when that is over MAX_SCAN.
  function Scan(write: seq<bv8>): (r: seq<Match>) {
    if |write| % TWO32 <= MAX_SCAN then FirstMatches(Measured(write)) else []
  }

  // The hook: as many chunks as the write has, if bpf_loop takes that many.
  method Prescan(write: seq<bv8>) returns (matches: seq<Match>)
    ensures matches == Scan(write)
    ensures var n := |write| % 0x1_0000_0000; matches == if n <= 2088763392 then Scan(write[..n]) else []
  {
    hide FirstMatches;
    ScanOfMeasured(write);
    var data := Measured(write);
    ChunksCover(|data|);
    var numChunks := NumChunks(|data|);
    if numChunks > BPF_MAX_LOOPS {
      return [];
    }
    matches := RunChunks(data, numChunks);
    assert numChunks == 0 ==> matches == [];
  }

  // bpf_loop over the chunks, until one of them stops it.
  method RunChunks(data: seq<bv8>, numChunks: nat) returns (matches: seq<Match>)
    requires |data| < TWO32
    ensures numChunks * CHUNK_STRIDE >= |data| ==> matches == FirstMatches(data)
    ensures numChunks == 0 ==> matches == []
  {
    hide Take;
    matches := [];
    var idx, stop := 0, false;
    EmptyScan(data);
    hide FlatScan;
    while idx < numChunks && !stop
      invariant 0 <= idx <= numChunks
      invariant matches == Take(FlatScan(data, 0, Min(idx * CHUNK_STRIDE, Limit(|data|))), MAX_MATCHES)
      invariant stop ==> matches == Take(FlatScan(data, 0, Limit(|data|)), MAX_MATCHES)
      invariant idx == 0 ==> matches == []
    {
      matches, stop := PrescanChunk(data, idx, matches);
      idx := idx + 1;
    }
  }

  // The scan finds the first four placeholders of every write of a length if and only if the length is at most
  // MAX_SCAN.
  lemma ScanIsWhole(n: nat)
    ensures (forall write: seq<bv8> :: |write| == n ==> Scan(write) == FirstMatches(write)) <==> n <= 2088763392
  {
    hide FirstMatches, Scan;
    if n > 2088763392 {
      var write := Missed(n);
      assert Scan(write) != FirstMatches(write);
    } else {
      forall write: seq<bv8> | |write| == n ensures Scan(write) == FirstMatches(write) {
        ShortIsWhole(write);
      }
    }
  }

  // The length counts modulo 2^32.
  lemma ScanOfMeasured(write: seq<bv8>)
    ensures var n := |write| % 0x1_0000_0000; Scan(write) == if n <= 2088763392 then Scan(write[..n]) else []
  {
    hide FirstMatches;
    var n := |write| % 0x1_0000_0000;
    if n <= 2088763392 {
      assert Measured(write) == write[..n] == Measured(write[..n]);
    }
  }

  lemma ShortIsWhole(write: seq<bv8>)
    requires |write| <= 2088763392
    ensures Scan(write) == FirstMatches(write)
  {
    hide FirstMatches;
    assert Measured(write) == write;
  }

  // A longer write: the placeholder that ends it, the only one, is not found.
  lemma Missed(n: nat) returns (write: seq<bv8>)
    requires n > MAX_SCAN
    ensures |write| == n && PlaceholderAt(write, n - SECRET_KEY_LEN)
    ensures Scan(write) == [] && FirstMatches(write) != []
  {
    hide FlatScan, FirstMatches;
    var zeros := seq(n - SECRET_KEY_LEN, _ => 0);
    write := zeros + [0x6b, 0x6c, 0x3a, 0x3a, 0x41, 0x41, 0x41, 0x41];
    EndsInPlaceholder(zeros, write);
    if n >= TWO32 {
      assert Measured(write) == zeros[..n % TWO32];
      ZerosHaveNone(Measured(write));
    }
  }

  lemma EndsInPlaceholder(zeros: seq<bv8>, write: seq<bv8>)
    requires write == zeros + [0x6b, 0x6c, 0x3a, 0x3a, 0x41, 0x41, 0x41, 0x41]
    ensures PlaceholderAt(write, |zeros|) && FirstMatches(write) != []
  {
    hide FlatScan;
    var p := |zeros|;
    assert write[p..p + SECRET_KEY_LEN] == [0x6b, 0x6c, 0x3a, 0x3a, 0x41, 0x41, 0x41, 0x41];
    FlatScanComplete(write, Limit(|write|), p);
  }

  lemma ZerosHaveNone(data: seq<bv8>)
    requires forall k :: 0 <= k < |data| ==> data[k] == 0
    ensures FirstMatches(data) == []
  {
    hide FlatScan;
    var s := FlatScan(data, 0, Limit(|data|));
    if s != [] {
      FlatScanSound(data, Limit(|data|), s[0]);
      NoneAt(data, s[0].pos);
    }
  }

  lemma NoneAt(data: seq<bv8>, p: nat)
    requires p < |data| && data[p] == 0
    ensures !PlaceholderAt(data, p)
  {
    if p + SECRET_KEY_LEN <= |data| {
      assert data[p..p + SECRET_KEY_LEN][0] == data[p];
    }
  }

  lemma EmptyScan(data: seq<bv8>)
    ensures Take(FlatScan(data, 0, 0), MAX_MATCHES) == []
  {
  }

  predicate PlaceholderAt(data: seq<bv8>, p: nat) {
    p + SECRET_KEY_LEN <= |data| && IsPrefix(data[p..p + SECRET_KEY_LEN])
  }

  // A flat scan lists placeholder positions, each with its key...
  lemma {:induction false} FlatScanSound(data: seq<bv8>, hi: nat, m: Match)
    requires hi > 0 ==> hi + SECRET_KEY_LEN - 1 <= |data|
    requires m in FlatScan(data, 0, hi)
    ensures m.pos < hi && PlaceholderAt(data, m.pos) && m.key == data[m.pos..m.pos + SECRET_KEY_LEN]
  {
    hide IsPrefix;
    ScanStep(data, hi - 1);
    if m !in MatchAt(data, hi - 1) {
      FlatScanSound(data, hi - 1, m);
    }
  }

  // ... in increasing order...
  lemma {:induction false} FlatScanOrdered(data: seq<bv8>, hi: nat, i: nat, j: nat)
    requires hi > 0 ==> hi + SECRET_KEY_LEN - 1 <= |data|
    requires i < j < |FlatScan(data, 0, hi)|
    ensures FlatScan(data, 0, hi)[i].pos < FlatScan(data, 0, hi)[j].pos
  {
    hide IsPrefix;
    ScanStep(data, hi - 1);
    var s, t := FlatScan(data, 0, hi - 1), MatchAt(data, hi - 1);
    if j < |s| {
      FlatScanOrdered(data, hi - 1, i, j);
    } else {
      FlatScanSound(data, hi - 1, s[i]);
    }
  }

  // ... and misses none.
  lemma {:induction false} FlatScanComplete(data: seq<bv8>, hi: nat, p: nat)
    requires hi > 0 ==> hi + SECRET_KEY_LEN - 1 <= |data|
    requires p < hi && PlaceholderAt(data, p)
    ensures Match(p, data[p..p + SECRET_KEY_LEN]) in FlatScan(data, 0, hi)
  {
    hide IsPrefix;
    ScanStep(data, hi - 1);
    if p < hi - 1 {
      FlatScanComplete(data, hi - 1, p);
    }
  }

  // At p the write has "kl::", or the three bytes its HPACK Huffman code starts with, and at least 8 bytes.
  predicate Marked(write: seq<bv8>, p: nat) {
    p + 8 <= |write| && (write[p..p + 4] == [0x6b, 0x6c, 0x3a, 0x3a] || write[p..p + 3] == [0xeb, 0x45, 0xcb])
  }

  lemma MarkedIsPlaceholder(write: seq<bv8>, p: nat)
    ensures Marked(write, p) <==> PlaceholderAt(write, p)
  {
    if p + 8 <= |write| {
      var key, four, three := write[p..p + 8], write[p..p + 4], write[p..p + 3];
      assert forall i :: 0 <= i < 4 ==> key[i] == four[i];
      assert forall i :: 0 <= i < 3 ==> key[i] == three[i];
    }
  }

  predicate Ascending(ms: seq<Match>) {
    forall i, j :: 0 <= i < j < |ms| ==> ms[i].pos < ms[j].pos
  }

  // The scan of a write of at most 2088763392 bytes: the first four marked places, in order, each with its 8 bytes.
  lemma ScanFinds(write: seq<bv8>)
    requires |write| <= 2088763392
    ensures var ms := Scan(write);
            && |ms| <= 4 && Ascending(ms)
            && (forall m :: m in ms ==> Marked(write, m.pos) && m.key == write[m.pos..m.pos + 8])
            && (forall p: nat :: Marked(write, p) ==> Match(p, write[p..p + 8]) in ms || (|ms| == 4 && forall m :: m in ms ==> m.pos < p))
  {
    hide FlatScan, Marked, PlaceholderAt, IsPrefix;
    var hi := Limit(|write|);
    var all := FlatScan(write, 0, hi);
    var ms := Scan(write);
    assert ms == Take(all, 4);
    forall i, j | 0 <= i < j < |ms| ensures ms[i].pos < ms[j].pos {
      FlatScanOrdered(write, hi, i, j);
    }
    forall m | m in ms ensures Marked(write, m.pos) && m.pos + 8 <= |write| && m.key == write[m.pos..m.pos + 8] {
      FlatScanSound(write, hi, m);
      MarkedIsPlaceholder(write, m.pos);
      MarkedEnds(write, m.pos);
    }
    forall p: nat | Marked(write, p) ensures p + 8 <= |write| {
      MarkedEnds(write, p);
    }
    forall p: nat | Marked(write, p) && Match(p, write[p..p + 8]) !in ms ensures |ms| == 4 && forall m :: m in ms ==> m.pos < p {
      MarkedIsPlaceholder(write, p);
      FlatScanComplete(write, hi, p);
      var k :| 0 <= k < |all| && all[k] == Match(p, write[p..p + 8]);
      assert k >= 4;
      forall m | m in ms ensures m.pos < p {
        var i :| 0 <= i < |ms| && ms[i] == m;
        FlatScanOrdered(write, hi, i, k);
      }
    }
  }

  lemma MarkedEnds(write: seq<bv8>, p: nat)
    requires Marked(write, p)
    ensures p + 8 <= |write|
  {
  }

  // ---- Staging: bpf_xor_path ----

  datatype SecretValue = SecretValue(len: nat, bytes: seq<bv8>)

  // Whether the match is rewritten at all: its key names a secret of a length that fits, and the
  // pod binding allows it.
  predicate Redeemable(m: Match, secrets: map<seq<bv8>, SecretValue>, allowed: set<seq<bv8>>) {
    && m.key in secrets && 1 <= secrets[m.key].len <= SECRET_MAX_LEN
    && |secrets[m.key].bytes| == SECRET_MAX_LEN && m.key in allowed
  }

  function Redeemed(ms: seq<Match>, secrets: map<seq<bv8>, SecretValue>, allowed: set<seq<bv8>>): (r: seq<Match>) {
    if ms == [] then []
    else
      var rest := Redeemed(ms[..|ms| - 1], secrets, allowed);
      if Redeemable(ms[|ms| - 1], secrets, allowed) then rest + [ms[|ms| - 1]] else rest
  }

  // Redeemed are exactly the matches whose key names a secret of 1 to 128 bytes and is allowed, in order.
  lemma {:induction false} RedeemedExactly(ms: seq<Match>, secrets: map<seq<bv8>, SecretValue>, allowed: set<seq<bv8>>)
    requires forall k :: k in secrets ==> |secrets[k].bytes| == 128
    ensures forall p, k :: Match(p, k) in Redeemed(ms, secrets, allowed) <==>
              Match(p, k) in ms && k in secrets && 1 <= secrets[k].len <= 128 && k in allowed
  {
    if ms != [] {
      var n := |ms| - 1;
      RedeemedExactly(ms[..n], secrets, allowed);
      assert ms == ms[..n] + [ms[n]];
      forall p, k ensures Match(p, k) in Redeemed(ms, secrets, allowed) <==>
          (Match(p, k) in Redeemed(ms[..n], secrets, allowed) || (Match(p, k) == ms[n] && Redeemable(ms[n], secrets, allowed)))
      {
        hide Redeemable;
      }
    }
  }

  lemma {:induction false} RedeemedAscends(ms: seq<Match>, secrets: map<seq<bv8>, SecretValue>, allowed: set<seq<bv8>>)
    requires Ascending(ms)
    ensures Ascending(Redeemed(ms, secrets, allowed)) && forall m :: m in Redeemed(ms, secrets, allowed) ==> m in ms
  {
    hide Redeemable;
    if ms != [] {
      var n := |ms| - 1;
      RedeemedAscends(ms[..n], secrets, allowed);
      var rest := Redeemed(ms[..n], secrets, allowed);
      forall i | 0 <= i < |rest| ensures rest[i].pos < ms[n].pos {
        assert rest[i] in ms[..n];
      }
    }
  }

  // bpf_probe_read_user of the 128 bytes at a match. memory is what is mapped from the write buffer on; a read that
  // leaves it fails, and leaves `failed` in the buffer.
  function ReadUser(memory: seq<bv8>, at: nat, failed: seq<bv8>): (bytes: seq<bv8>)
    requires |failed| == SECRET_MAX_LEN
    ensures |bytes| == SECRET_MAX_LEN
  {
    if Mapped(memory, at) then memory[at..at + SECRET_MAX_LEN] else failed
  }

  predicate Mapped(memory: seq<bv8>, at: nat) {
    at + SECRET_MAX_LEN <= |memory|
  }

  // The patch staged for a match: for every j below the secret's length, delta[j] is the byte read XOR the secret's.
  ghost predicate StagedFor(p: Patch, m: Match, secrets: map<seq<bv8>, SecretValue>, memory: seq<bv8>, failed: seq<bv8>) {
    && Staged(p) && p.off == m.pos && m.key in secrets && p.len == secrets[m.key].len
    && |secrets[m.key].bytes| == |failed| == SECRET_MAX_LEN
    && forall j :: 0 <= j < p.len ==> p.delta[j] == Xor(ReadUser(memory, p.off, failed)[j], secrets[m.key].bytes[j])
  }

  // The result of the read is not looked at: the patch is staged even where it failed.
  method XorPath(matches: seq<Match>, secrets: map<seq<bv8>, SecretValue>, allowed: set<seq<bv8>>, memory: seq<bv8>,
                 failed: seq<bv8>)
    returns (patches: seq<Patch>, keys: seq<seq<bv8>>)
    requires |matches| <= MAX_MATCHES && |failed| == SECRET_MAX_LEN
    requires forall i :: 0 <= i < |matches| ==> matches[i].pos < TWO32
    requires forall k :: k in secrets ==> |secrets[k].bytes| == SECRET_MAX_LEN
    ensures |patches| == |Redeemed(matches, secrets, allowed)| <= MAX_PATCHES
    ensures forall i :: 0 <= i < |patches| ==>
              StagedFor(patches[i], Redeemed(matches, secrets, allowed)[i], secrets, memory, failed)
    ensures |keys| == |patches| && forall i :: 0 <= i < |patches| ==> keys[i] == Redeemed(matches, secrets, allowed)[i].key
    ensures forall p, k :: (exists i :: 0 <= i < |patches| && patches[i].off == p && keys[i] == k) <==>
              Match(p, k) in matches && k in secrets && 1 <= secrets[k].len <= 128 && k in allowed
  {
    hide ReadUser;
    patches, keys := [], [];
    for mi := 0 to |matches|
      invariant |keys| == |patches| == |Redeemed(matches[..mi], secrets, allowed)| <= mi
      invariant forall i :: 0 <= i < |keys| ==> keys[i] == Redeemed(matches[..mi], secrets, allowed)[i].key
      invariant forall i :: 0 <= i < |patches| ==>
                  StagedFor(patches[i], Redeemed(matches[..mi], secrets, allowed)[i], secrets, memory, failed)
    {
      hide Xor;
      var m := matches[mi];
      assert matches[..mi + 1][..mi] == matches[..mi];
      if m.key in secrets && secrets[m.key].len != 0 && secrets[m.key].len <= SECRET_MAX_LEN && m.key in allowed {
        var value := secrets[m.key];
        var delta := ReadDelta(ReadUser(memory, m.pos, failed), value);
        if |patches| < MAX_PATCHES {
          patches, keys := patches + [Patch(m.pos, value.len, delta)], keys + [m.key];
        }
      }
    }
    assert matches[..|matches|] == matches;
    RedeemedExactly(matches, secrets, allowed);
    StagedAt(patches, keys, Redeemed(matches, secrets, allowed), secrets, memory, failed);
  }

  lemma StagedAt(patches: seq<Patch>, keys: seq<seq<bv8>>, ms: seq<Match>, secrets: map<seq<bv8>, SecretValue>, memory: seq<bv8>, failed: seq<bv8>)
    requires |patches| == |keys| == |ms|
    requires forall i :: 0 <= i < |patches| ==> StagedFor(patches[i], ms[i], secrets, memory, failed) && keys[i] == ms[i].key
    ensures forall p, k :: (exists i :: 0 <= i < |patches| && patches[i].off == p && keys[i] == k) <==> Match(p, k) in ms
  {
    hide ReadUser, Xor;
    forall p, k | Match(p, k) in ms ensures exists i :: 0 <= i < |patches| && patches[i].off == p && keys[i] == k {
      var i :| 0 <= i < |ms| && ms[i] == Match(p, k);
      assert patches[i].off == p && keys[i] == k;
    }
  }

  // The delta buffer: 128 bytes read at the match, the secret XORed into the first of them.
  method ReadDelta(bytes: seq<bv8>, value: SecretValue) returns (delta: seq<bv8>)
    requires |bytes| == |value.bytes| == SECRET_MAX_LEN && 1 <= value.len <= SECRET_MAX_LEN
    ensures |delta| == SECRET_MAX_LEN
    ensures forall j :: 0 <= j < value.len ==> delta[j] == Xor(bytes[j], value.bytes[j])
  {
    hide Xor;
    var n := ClampWriteLen(value.len);
    var buf := new bv8[SECRET_MAX_LEN](j requires 0 <= j < SECRET_MAX_LEN => bytes[j]);
    for j := 0 to n
      invariant forall k :: 0 <= k < j ==> buf[k] == Xor(bytes[k], value.bytes[k])
      invariant forall k :: j <= k < SECRET_MAX_LEN ==> buf[k] == bytes[k]
    {
      buf[j] := Xor(buf[j], value.bytes[j]);
    }
    delta := buf[..];
  }

  // A staged patch that ends inside the write carries the secret in the sense of RecordPatch, over any plaintext that
  // starts with the write (TLS 1.3 appends a content type byte), if and only if the 128 bytes at its placeholder are
  // mapped, however short the secret: a failed read leaves the buffer cleared, and a placeholder does not start with 0.
  lemma StagedCarries(p: Patch, m: Match, secrets: map<seq<bv8>, SecretValue>, memory: seq<bv8>, failed: seq<bv8>,
                      plain: seq<bv8>, n: nat)
    requires StagedFor(p, m, secrets, memory, failed) && n <= |memory| && n <= |plain| && plain[..n] == memory[..n]
    requires p.off + p.len <= n && PlaceholderAt(plain, p.off) && failed[0] == 0
    ensures StagedOrSkipped(p) && (Carries(p, plain, secrets[m.key].bytes) <==> Mapped(memory, p.off))
    ensures n <= MAX_PLAINTEXT ==> Inside(p, |plain|)
  {
    hide Xor, PlaceholderAt, ReadUser;
    if Mapped(memory, p.off) {
      MappedCarries(p, m, secrets, memory, failed, plain, n);
    } else {
      assert ReadUser(memory, p.off, failed) == failed by {
        hide *;
        UnmappedRead(memory, p.off, failed);
      }
      if plain[p.off] == 0 {
        NoneAt(plain, p.off);
      }
      XorInjective(plain[p.off], failed[0], secrets[m.key].bytes[0]);
      assert p.delta[0] != Xor(plain[p.off + 0], secrets[m.key].bytes[0]);
    }
  }

  lemma UnmappedRead(memory: seq<bv8>, at: nat, failed: seq<bv8>)
    requires |failed| == SECRET_MAX_LEN && !Mapped(memory, at)
    ensures ReadUser(memory, at, failed) == failed
  {
  }

  lemma MappedCarries(p: Patch, m: Match, secrets: map<seq<bv8>, SecretValue>, memory: seq<bv8>, failed: seq<bv8>,
                      plain: seq<bv8>, n: nat)
    requires StagedFor(p, m, secrets, memory, failed) && n <= |memory| && n <= |plain| && plain[..n] == memory[..n]
    requires p.off + p.len <= n && Mapped(memory, p.off)
    ensures Carries(p, plain, secrets[m.key].bytes)
  {
    hide Xor;
    forall k | 0 <= k < n ensures plain[k] == memory[k] {
      assert plain[k] == plain[..n][k] == memory[..n][k];
    }
    forall j | 0 <= j < p.len ensures p.delta[j] == Xor(plain[p.off + j], secrets[m.key].bytes[j]) {
      assert ReadUser(memory, p.off, failed)[j] == memory[p.off + j];
    }
  }

  lemma XorInjective(a: bv8, b: bv8, c: bv8)
    ensures Xor(a, c) == Xor(b, c) ==> a == b
  {
  }
}
