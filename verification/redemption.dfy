/** The whole way of a write: its placeholders found and staged, the record that carries it patched, and what its
    receiver decrypts and verifies. */
module Redemption {
  import opened GF128Bytes
  import opened Arithmetic
  import opened Huffman
  import opened Shadows
  import opened RecordPatch
  import opened Substitution
  import opened PlaceholderScan
  import SecretMap
  import SocketSecrets
  import Grants
  import GrantsManager

  // ---- One record ----

  // The secrets of matches that are redeemed.
  function SecretsOf(ms: seq<Match>, secrets: map<seq<bv8>, SecretValue>): (s: seq<seq<bv8>>)
    requires forall i :: 0 <= i < |ms| ==> ms[i].key in secrets
    ensures |s| == |ms|
  {
    seq(|ms|, i requires 0 <= i < |ms| => secrets[ms[i].key].bytes)
  }

  // Every redeemed placeholder has its 128 bytes mapped, and its secret ends inside the write.
  predicate Placed(ms: seq<Match>, secrets: map<seq<bv8>, SecretValue>, memory: seq<bv8>, n: nat) {
    forall i :: 0 <= i < |ms| ==>
      Mapped(memory, ms[i].pos) && ms[i].key in secrets && ms[i].pos + secrets[ms[i].key].len <= n
  }

  ghost predicate AllStagedFor(ps: seq<Patch>, ms: seq<Match>, secrets: map<seq<bv8>, SecretValue>, memory: seq<bv8>, failed: seq<bv8>) {
    |ps| == |ms| && forall i :: 0 <= i < |ps| ==> StagedFor(ps[i], ms[i], secrets, memory, failed)
  }

  // Staged patches that are placed, or those of them the segment holds, lie inside the record and carry their secrets.
  lemma StagedFit(ps: seq<Patch>, ms: seq<Match>, secrets: map<seq<bv8>, SecretValue>, memory: seq<bv8>, failed: seq<bv8>,
                  plain: seq<bv8>, n: nat, recordLen: nat, nonceLen: nat, at: nat, segment: nat)
    requires AllStagedFor(ps, ms, secrets, memory, failed) && Placed(ms, secrets, memory, n)
    requires n <= MAX_PLAINTEXT && n <= |memory| && n <= |plain| && plain[..n] == memory[..n]
    ensures var settled := SettledAll(ps, recordLen, nonceLen, at, segment);
            AllCarry(plain, settled, SecretsOf(ms, secrets)) && AllInside(settled, |plain|)
  {
    hide Xor, ReadUser;
    var settled := SettledAll(ps, recordLen, nonceLen, at, segment);
    forall i | 0 <= i < |ps|
      ensures StagedOrSkipped(settled[i]) && Carries(settled[i], plain, secrets[ms[i].key].bytes) && Inside(settled[i], |plain|)
    {
      assert StagedFor(ps[i], ms[i], secrets, memory, failed);
      MappedCarries(ps[i], ms[i], secrets, memory, failed, plain, n);
    }
  }

  // What TcPatchRecord is given: at most four matches, their secrets known and their patches staged in order.
  ghost predicate Staging(ps: seq<Patch>, ms: seq<Match>, secrets: map<seq<bv8>, SecretValue>, memory: seq<bv8>, failed: seq<bv8>) {
    && AllStagedFor(ps, ms, secrets, memory, failed)
    && forall i :: 0 <= i < |ms| ==> ms[i].key in secrets
  }

  lemma ScanBounds(write: seq<bv8>)
    ensures |Scan(write)| <= MAX_MATCHES && forall i :: 0 <= i < |Scan(write)| ==> Scan(write)[i].pos < TWO32
  {
    hide FlatScan, IsPrefix;
    var data := Measured(write);
    var all := FlatScan(data, 0, Limit(|data|));
    forall m | m in all ensures m.pos < TWO32 {
      FlatScanSound(data, Limit(|data|), m);
    }
  }

  lemma {:induction false} RedeemedKeys(ms: seq<Match>, secrets: map<seq<bv8>, SecretValue>, allowed: set<seq<bv8>>)
    ensures forall m :: m in Redeemed(ms, secrets, allowed) ==> m in ms && Redeemable(m, secrets, allowed)
  {
    hide Redeemable;
    if ms != [] {
      RedeemedKeys(ms[..|ms| - 1], secrets, allowed);
    }
  }

  // Which places the settled patches are at, and that those are not skipped whose secrets end inside the write when the
  // segment holds all of it.
  predicate SettledOf(settled: seq<Patch>, ms: seq<Match>, secrets: map<seq<bv8>, SecretValue>, n: nat, whole: bool) {
    && |settled| == |ms|
    && forall i :: 0 <= i < |ms| ==>
         && ms[i].key in secrets && settled[i].off == ms[i].pos
         && (settled[i].len == secrets[ms[i].key].len || settled[i].len == 0)
         && (ms[i].pos + secrets[ms[i].key].len <= n && whole ==> settled[i].len == secrets[ms[i].key].len)
  }

  lemma SettledPlaces(ps: seq<Patch>, ms: seq<Match>, secrets: map<seq<bv8>, SecretValue>, memory: seq<bv8>, failed: seq<bv8>,
                      n: nat, recordLen: nat, nonceLen: nat, at: nat, segment: nat)
    requires Staging(ps, ms, secrets, memory, failed) && n + TAG_LEN + nonceLen <= recordLen
    ensures SettledOf(SettledAll(ps, recordLen, nonceLen, at, segment), ms, secrets, n, at + n <= segment)
  {
    hide Xor, ReadUser;
    forall i | 0 <= i < |ps| ensures StagedFor(ps[i], ms[i], secrets, memory, failed) {
    }
  }

  // Byte for byte: where a patch is, its secret; elsewhere, the plaintext.
  ghost predicate Swapped(got: seq<bv8>, plain: seq<bv8>, ps: seq<Patch>, secrets: seq<seq<bv8>>)
    requires |ps| == |secrets| && forall i :: 0 <= i < |ps| ==> ps[i].len <= |secrets[i]|
  {
    && |got| == |plain|
    && (forall i, k :: 0 <= i < |ps| && ps[i].off <= k < ps[i].off + ps[i].len && k < |got| ==> got[k] == secrets[i][k - ps[i].off])
    && (forall k :: 0 <= k < |got| && (forall i :: 0 <= i < |ps| ==> k < ps[i].off || ps[i].off + ps[i].len <= k) ==> got[k] == plain[k])
  }

  lemma SubstitutedIsSwapped(got: seq<bv8>, plain: seq<bv8>, ps: seq<Patch>, secrets: seq<seq<bv8>>)
    requires |ps| == |secrets| && (forall i :: 0 <= i < |ps| ==> ps[i].len <= |secrets[i]|) && Substituted(got, plain, ps, secrets)
    ensures Swapped(got, plain, ps, secrets)
  {
    forall i, k | 0 <= i < |ps| && ps[i].off <= k < ps[i].off + ps[i].len && k < |got| ensures got[k] == secrets[i][k - ps[i].off] {
      assert Covers(ps[i], k);
    }
    forall k | 0 <= k < |got| && (forall i :: 0 <= i < |ps| ==> k < ps[i].off || ps[i].off + ps[i].len <= k) ensures got[k] == plain[k] {
      assert forall i :: 0 <= i < |ps| ==> !Covers(ps[i], k);
    }
  }

  // What becomes of the record: it survives, and decrypts to the plaintext with the secrets in place, exactly if they
  // agree where they overlap, and always if they are disjoint.
  ghost predicate Delivered(before: seq<bv8>, after: seq<bv8>, r: Record, outcome: Outcome, auth: Auth, keystream: seq<bv8>,
                            settled: seq<Patch>, secrets: seq<seq<bv8>>)
    requires Holds(before, r) && Holds(after, r) && (outcome.TagDeferred? ==> |outcome.tagDelta| == TAG_LEN)
    requires |keystream| == r.ctLen
  {
    var plain, got := XorBytes(Ciphertext(before, r), keystream), XorBytes(Ciphertext(after, r), keystream);
    && Survives(before, after, r, outcome, auth)
    && AllCarry(plain, settled, secrets)
    && (Substituted(got, plain, settled, secrets) <==> Agree(plain, settled, secrets))
    && (Disjoint(settled) ==> Substituted(got, plain, settled, secrets) && Swapped(got, plain, settled, secrets))
  }

  lemma PlacedIsDelivered(before: seq<bv8>, after: seq<bv8>, r: Record, outcome: Outcome, auth: Auth, keystream: seq<bv8>,
                          ps: seq<Patch>, ms: seq<Match>, secrets: map<seq<bv8>, SecretValue>, memory: seq<bv8>, failed: seq<bv8>,
                          n: nat, recordLen: nat, nonceLen: nat, segment: nat)
    requires Holds(before, r) && Holds(after, r) && (outcome.TagDeferred? ==> |outcome.tagDelta| == TAG_LEN)
    requires |keystream| == r.ctLen && Staging(ps, ms, secrets, memory, failed) && Placed(ms, secrets, memory, n)
    requires n <= MAX_PLAINTEXT && n <= |memory| && n <= r.ctLen
    requires XorBytes(Ciphertext(before, r), keystream)[..n] == memory[..n]
    requires var settled := SettledAll(ps, recordLen, nonceLen, r.at, segment);
             && AllStaged(settled) && Ciphertext(after, r) == XorBytes(Ciphertext(before, r), BytesDelta(settled, r.ctLen))
             && (AllInside(settled, r.ctLen) ==> Survives(before, after, r, outcome, auth))
    ensures Delivered(before, after, r, outcome, auth, keystream, SettledAll(ps, recordLen, nonceLen, r.at, segment), SecretsOf(ms, secrets))
  {
    var c := Ciphertext(before, r);
    var settled := SettledAll(ps, recordLen, nonceLen, r.at, segment);
    hide *;
    var plain, all := XorBytes(c, keystream), SecretsOf(ms, secrets);
    StagedFit(ps, ms, secrets, memory, failed, plain, n, recordLen, nonceLen, r.at, segment);
    RewrittenRecord(c, keystream, settled, all);
    CarriedAreLong(plain, settled, all);
    if Disjoint(settled) {
      SubstitutedIsSwapped(XorBytes(XorBytes(c, BytesDelta(settled, |c|)), keystream), plain, settled, all);
    }
  }

  lemma CarriedAreLong(plain: seq<bv8>, ps: seq<Patch>, secrets: seq<seq<bv8>>)
    requires AllCarry(plain, ps, secrets)
    ensures |ps| == |secrets| && forall i :: 0 <= i < |ps| ==> ps[i].len <= |secrets[i]|
  {
  }

  // The places that may be patched are exactly those of the write's first four placeholders whose key names a secret of
  // 1 to 128 bytes and is allowed.
  ghost predicate RedeemsOnly(settled: seq<Patch>, write: seq<bv8>, secrets: map<seq<bv8>, SecretValue>, allowed: set<seq<bv8>>) {
    && (forall i :: 0 <= i < |settled| ==>
          && Marked(write, settled[i].off) && settled[i].off + 8 <= |write|
          && var key := write[settled[i].off..settled[i].off + 8];
             key in secrets && 1 <= secrets[key].len <= 128 && key in allowed)
    && (forall m :: m in Scan(write) && m.key in secrets && 1 <= secrets[m.key].len <= 128 && m.key in allowed ==>
          exists i :: 0 <= i < |settled| && settled[i].off == m.pos)
    && (forall i, j :: 0 <= i < j < |settled| ==> settled[i].off < settled[j].off)
  }

  lemma RedeemedPlaces(settled: seq<Patch>, write: seq<bv8>, secrets: map<seq<bv8>, SecretValue>, allowed: set<seq<bv8>>, whole: bool)
    requires |write| <= 2088763392 && forall k :: k in secrets ==> |secrets[k].bytes| == 128
    requires SettledOf(settled, Redeemed(Scan(write), secrets, allowed), secrets, |write|, whole)
    ensures RedeemsOnly(settled, write, secrets, allowed)
  {
    hide Marked, Scan, Redeemed;
    var ms := Redeemed(Scan(write), secrets, allowed);
    ScanFinds(write);
    RedeemedExactly(Scan(write), secrets, allowed);
    RedeemedAscends(Scan(write), secrets, allowed);
    forall i | 0 <= i < |settled|
      ensures Marked(write, settled[i].off) && settled[i].off + 8 <= |write|
      ensures var key := write[settled[i].off..settled[i].off + 8]; key in secrets && 1 <= secrets[key].len <= 128 && key in allowed
    {
      assert ms[i] == Match(ms[i].pos, ms[i].key) && ms[i] in ms;
      MarkedEnds(write, ms[i].pos);
    }
    forall m | m in Scan(write) && m.key in secrets && 1 <= secrets[m.key].len <= 128 && m.key in allowed
      ensures exists i :: 0 <= i < |settled| && settled[i].off == m.pos
    {
      assert m == Match(m.pos, m.key);
      var i :| 0 <= i < |ms| && ms[i] == m;
      assert settled[i].off == m.pos;
    }
  }

  // A write that one record carries, from the hook to the wire. Whatever the memory, the secrets, the keys and the
  // keystream: if the redeemed placeholders are placed, the record survives, and what it decrypts to is the plaintext
  // with the secrets of the placeholders the segment holds in their place, if and only if they agree where they
  // overlap; always, if they are disjoint.
  method RedeemWrite(write: seq<bv8>, memory: seq<bv8>, failed: seq<bv8>, secrets: map<seq<bv8>, SecretValue>, allowed: set<seq<bv8>>,
                     skb: array<bv8>, payloadOff: nat, recordLen: nat, nonceLen: nat, h: seq<bv8>,
                     ghost auth: Auth, ghost r: Record, ghost keystream: seq<bv8>)
    returns (outcome: Outcome, ghost settled: seq<Patch>)
    requires |failed| == SECRET_MAX_LEN && forall k :: k in secrets ==> |secrets[k].bytes| == SECRET_MAX_LEN
    requires write <= memory && |h| == 16 && ToElem(h) == auth.h && TAG_LEN + nonceLen <= recordLen <= MAX_RECORD_LEN
    requires r.at == payloadOff + HDR_LEN + nonceLen && r.ctLen == recordLen - TAG_LEN - nonceLen && |keystream| == r.ctLen
    requires Holds(skb[..], r) && ToElem(Tag(skb[..], r)) == GcmTag(auth, Ciphertext(skb[..], r))
    requires write <= XorBytes(Ciphertext(skb[..], r), keystream)
    modifies skb
    ensures outcome.TagDeferred? ==> |outcome.tagDelta| == TAG_LEN
    ensures Holds(skb[..], r)
    ensures var ms := Redeemed(Scan(write), secrets, allowed);
            && SettledOf(settled, ms, secrets, |write|, r.at + |write| <= skb.Length)
            && (|write| <= MAX_PLAINTEXT && Placed(ms, secrets, memory, |write|) ==>
                  Delivered(old(skb[..]), skb[..], r, outcome, auth, keystream, settled, SecretsOf(ms, secrets)))
    ensures RedeemsOnly(settled, write, secrets, allowed)
    ensures (forall p: nat :: Marked(write, p) && p + 8 <= |write| ==> write[p..p + 8] !in allowed) ==>
              outcome.Untouched? && skb[..] == old(skb[..])
  {
    hide Xor, XorBytes, ByteDelta, BytesDelta, ToElem, GcmTag, Scan, Redeemed, Redeemable, ReadUser, Carries, Fits, Survives, Delivered, Marked, RedeemsOnly;
    hide PatchedOutside, Settled, SettledAll, SettledOf, Placed, AllInside, SecretsOf, Ciphertext, Tag;
    ghost var before := skb[..];
    var matches := Prescan(write);
    ScanBounds(write);
    RedeemedKeys(matches, secrets, allowed);
    var patches, keys := XorPath(matches, secrets, allowed, memory, failed);
    ghost var ms := Redeemed(matches, secrets, allowed);
    assert Staging(patches, ms, secrets, memory, failed);
    outcome, settled := TcPatchRecord(skb, payloadOff, recordLen, nonceLen, patches, h, auth, r);
    SettledPlaces(patches, ms, secrets, memory, failed, |write|, recordLen, nonceLen, r.at, skb.Length);
    RedeemedPlaces(settled, write, secrets, allowed, r.at + |write| <= skb.Length) by {
      assert |write| <= 2088763392;
    }
    if settled != [] {
      SomeAllowed(settled, write, secrets, allowed);
    }
    if |write| <= MAX_PLAINTEXT && Placed(ms, secrets, memory, |write|) {
      PlacedIsDelivered(before, skb[..], r, outcome, auth, keystream, patches, ms, secrets, memory, failed, |write|, recordLen, nonceLen, skb.Length);
    }
  }

  lemma SomeAllowed(settled: seq<Patch>, write: seq<bv8>, secrets: map<seq<bv8>, SecretValue>, allowed: set<seq<bv8>>)
    requires RedeemsOnly(settled, write, secrets, allowed) && settled != []
    ensures exists p: nat :: Marked(write, p) && p + 8 <= |write| && write[p..p + 8] in allowed
  {
    assert Marked(write, settled[0].off);
  }

  // ---- An overlap that is staged ----

  const TWO_KEYS: seq<bv8> := [0x6b, 0x6c, 0x3a, 0x3a, 0x41, 0x41, 0x41, 0x41, 0x6b, 0x6c, 0x3a, 0x3a, 0x42, 0x42, 0x42, 0x42]
  const KEY_A: seq<bv8> := [0x6b, 0x6c, 0x3a, 0x3a, 0x41, 0x41, 0x41, 0x41]
  const KEY_B: seq<bv8> := [0x6b, 0x6c, 0x3a, 0x3a, 0x42, 0x42, 0x42, 0x42]

  // Two placeholders back to back are both found.
  lemma ScanOfTwoKeys()
    ensures Scan(TWO_KEYS) == [Match(0, KEY_A), Match(8, KEY_B)]
  {
    hide FlatScan;
    var data := TWO_KEYS;
    assert Measured(data) == data;
    EmptyScan(data);
    ScanStep(data, 0);
    KeysOfTwo();
    assert MatchAt(data, 0) == [Match(0, KEY_A)] && MatchAt(data, 8) == [Match(8, KEY_B)];
    NothingBetween(data, 1, 8);
    ScanStep(data, 8);
  }

  lemma KeysOfTwo()
    ensures TWO_KEYS[0..8] == KEY_A && TWO_KEYS[8..16] == KEY_B
    ensures IsPrefix(KEY_A) && IsPrefix(KEY_B)
  {
    assert TWO_KEYS == KEY_A + KEY_B;
  }

  lemma {:induction false} NothingBetween(data: seq<bv8>, lo: nat, hi: nat)
    requires lo <= hi && hi + SECRET_KEY_LEN - 1 <= |data|
    requires forall p :: lo <= p < hi ==> data[p] != 0x6b && data[p] != 0xeb
    ensures FlatScan(data, 0, hi) == FlatScan(data, 0, lo)
    decreases hi - lo
  {
    hide FlatScan;
    if lo < hi {
      NothingBetween(data, lo, hi - 1);
      ScanStep(data, hi - 1);
      assert data[hi - 1..hi - 1 + SECRET_KEY_LEN][0] == data[hi - 1];
    }
  }

  // Where the first one's secret is longer than its key, the second placeholder is covered twice: staged, both patches
  // carry their secrets, and unless the first secret's ninth byte is the "k" it covers, what comes out is not both.
  lemma StagedOverlap(ps: seq<Patch>, secrets: map<seq<bv8>, SecretValue>, allowed: set<seq<bv8>>, memory: seq<bv8>, failed: seq<bv8>, plain: seq<bv8>)
    requires AllStagedFor(ps, Redeemed(Scan(TWO_KEYS), secrets, allowed), secrets, memory, failed)
    requires Redeemable(Match(0, KEY_A), secrets, allowed) && Redeemable(Match(8, KEY_B), secrets, allowed)
    requires secrets[KEY_A].len >= 9 && secrets[KEY_A].bytes[8] != 0x6b
    requires TWO_KEYS <= plain <= memory && |plain| >= 8 + SECRET_MAX_LEN
    ensures |ps| == 2 && ps[0].off == 0 && ps[1].off == 8 && ps[0].len >= 9
    ensures var s := [secrets[KEY_A].bytes, secrets[KEY_B].bytes];
            AllCarry(plain, ps, s) && !Substituted(XorBytes(plain, BytesDelta(ps, |plain|)), plain, ps, s)
  {
    hide Scan, Redeemed, AllStagedFor, AllCarry, Substituted, XorBytes, BytesDelta;
    ScanOfTwoKeys();
    var ms := [Match(0, KEY_A), Match(8, KEY_B)];
    RedeemedBoth(ms, secrets, allowed);
    StagedPair(ps, ms, secrets, memory, failed, plain);
    OverlapGarbles(plain, ps, [secrets[KEY_A].bytes, secrets[KEY_B].bytes], 8);
  }

  lemma StagedPair(ps: seq<Patch>, ms: seq<Match>, secrets: map<seq<bv8>, SecretValue>, memory: seq<bv8>, failed: seq<bv8>, plain: seq<bv8>)
    requires ms == [Match(0, KEY_A), Match(8, KEY_B)] && AllStagedFor(ps, ms, secrets, memory, failed)
    requires KEY_A in secrets && |secrets[KEY_A].bytes| == SECRET_MAX_LEN
    requires secrets[KEY_A].len >= 9 && secrets[KEY_A].bytes[8] != 0x6b
    requires TWO_KEYS <= plain <= memory && |plain| >= 8 + SECRET_MAX_LEN
    ensures KEY_B in secrets
    ensures |ps| == 2 && ps[0].off == 0 && ps[1].off == 8 && ps[0].len >= 9
    ensures var s := [secrets[KEY_A].bytes, secrets[KEY_B].bytes];
            AllCarry(plain, ps, s) && Covers(ps[0], 8) && Covers(ps[1], 8) && SecretByte(ps, s, 0, 8) != plain[8]
  {
    assert StagedFor(ps[0], ms[0], secrets, memory, failed) && StagedFor(ps[1], ms[1], secrets, memory, failed);
    hide Xor, ReadUser, BytesDelta, Substituted, StagedFor, Carries;
    StagedPlace(ps[0], ms[0], secrets, memory, failed);
    StagedPlace(ps[1], ms[1], secrets, memory, failed);
    MappedCarries(ps[0], ms[0], secrets, memory, failed, plain, |plain|);
    MappedCarries(ps[1], ms[1], secrets, memory, failed, plain, |plain|);
    assert plain[8] == TWO_KEYS[8] == 0x6b;
  }

  lemma StagedPlace(p: Patch, m: Match, secrets: map<seq<bv8>, SecretValue>, memory: seq<bv8>, failed: seq<bv8>)
    requires StagedFor(p, m, secrets, memory, failed)
    ensures Staged(p) && m.key in secrets && p.off == m.pos && p.len == secrets[m.key].len <= SECRET_MAX_LEN == |secrets[m.key].bytes|
  {
  }

  lemma RedeemedBoth(ms: seq<Match>, secrets: map<seq<bv8>, SecretValue>, allowed: set<seq<bv8>>)
    requires |ms| == 2 && Redeemable(ms[0], secrets, allowed) && Redeemable(ms[1], secrets, allowed)
    ensures Redeemed(ms, secrets, allowed) == ms
  {
    hide Redeemable;
    var one := ms[..1];
    assert ms[..|ms| - 1] == one && one[..|one| - 1] == [];
    assert Redeemed(one, secrets, allowed) == [ms[0]];
  }

  // ---- Which secret a placeholder stands for ----

  // A string of the control plane, one character a byte, as the programs see it.
  function Bytes(s: string): (b: seq<bv8>)
    ensures |b| == |s|
  {
    seq(|s|, i requires 0 <= i < |s| => (s[i] as int % 256) as bv8)
  }

  // A secret_map entry as the programs see it: its bytes fill 128.
  function Stored(v: SecretMap.SecretValue): (r: SecretValue) {
    SecretValue(|v.bytes|, seq(SECRET_MAX_LEN, j => if 0 <= j < |v.bytes| then Bytes(v.bytes)[j] else 0))
  }

  // One map, as the control plane writes it and as the programs read it.
  ghost predicate Mirrors(secrets: map<seq<bv8>, SecretValue>, m: map<string, SecretMap.SecretValue>) {
    forall k :: k in m ==> Bytes(k) in secrets && secrets[Bytes(k)] == Stored(m[k])
  }

  // After a sync, a placeholder of a minted secret of up to 128 bytes is replaced by exactly that secret: its raw form
  // by the value, as long as the whole shadow; its Huffman form by the value's encoding, as long as the shadow's.
  lemma StandsForItsSecret(m: map<string, SecretMap.SecretValue>, snapshot: seq<SecretMap.Secret>, i: nat, k: string,
                           secrets: map<seq<bv8>, SecretValue>, allowed: set<seq<bv8>>, p: nat)
    requires i < |snapshot| && SecretMap.OneSecretPerKey(snapshot) && SecretMap.Entered(m, snapshot, |snapshot|)
    requires SecretMap.Synced(snapshot[i]) && 1 <= |snapshot[i].real'| <= SECRET_MAX_LEN
    requires Shadowing(snapshot[i].shadow, |snapshot[i].real'|, HuffmanBits(snapshot[i].real'))
    requires k in PlaceholderKeys(snapshot[i].shadow) && Mirrors(secrets, m) && Bytes(k) in allowed
    ensures var s := snapshot[i];
            var (shown, value) := if k == RawKey(s.shadow) then (s.shadow, s.real')
                                  else (AppendHuffmanString(s.shadow), AppendHuffmanString(s.real'));
            && Redeemable(Match(p, Bytes(k)), secrets, allowed)
            && k <= shown && |value| == |shown|
            && secrets[Bytes(k)].len == |shown| && secrets[Bytes(k)].bytes[..|shown|] == Bytes(value)
  {
    var s := snapshot[i];
    SecretMap.PlaceholderKeysLeadToValue(m, snapshot, i, k);
    SecretMap.SlotIsExact(s);
    SlotFits(s.shadow, s.real');
    hide AppendHuffmanString, HuffmanBits, Shadowing;
    if k == RawKey(s.shadow) {
      StoredBytes(SecretMap.RawValue(s));
    } else {
      StoredBytes(SecretMap.HuffmanValue(s));
    }
  }

  lemma StoredBytes(v: SecretMap.SecretValue)
    requires |v.bytes| <= SECRET_MAX_LEN
    ensures |Stored(v).bytes| == SECRET_MAX_LEN && Stored(v).bytes[..|v.bytes|] == Bytes(v.bytes)
  {
  }

  // ---- Where a secret may go, and who may use it ----

  // The restrictions the socket check reads are those of the entries the control plane wrote.
  ghost predicate MirrorsLimits(limits: map<seq<bv8>, SocketSecrets.Secret>, m: map<string, SecretMap.SecretValue>) {
    forall k :: k in m ==> Bytes(k) in limits && limits[Bytes(k)] == m[k].limits
  }

  // After a sync, in enforce mode: a patch of a secret with a host of 1 to 63 bytes, raw or Huffman, leaves only on a
  // socket that last connected to a fake IP of that host, was sent to an address of it, and named it in its ClientHello.
  lemma HostSecretStaysWithItsHost(m: map<string, SecretMap.SecretValue>, snapshot: seq<SecretMap.Secret>, i: nat, k: string,
                                   limits: map<seq<bv8>, SocketSecrets.Secret>, es: seq<SocketSecrets.Event>,
                                   sock: SocketSecrets.Socket, staged: seq<SocketSecrets.Staged>, p: SocketSecrets.Staged)
    requires i < |snapshot| && SecretMap.StoresAll(m, snapshot) && MirrorsLimits(limits, m)
    requires var s := snapshot[i]; 0 < |s.host| < 64 && |s.shadow| >= 8
    requires var s := snapshot[i]; k == s.shadow[..8] || (SecretMap.FitsHuffman(s) && k == AppendHuffmanString(s.shadow)[..8])
    requires SocketSecrets.PossibleRun(es) && p.key == Bytes(k)
    requires p in SocketSecrets.Survivors(SocketSecrets.Run(es), limits, false, sock, staged)
    ensures SocketSecrets.LeavesForHost(es, sock, snapshot[i].host)
  {
    var s := snapshot[i];
    hide AppendHuffmanString;
    assert SecretMap.Stored(s);
    assert SecretMap.StoresRaw(m, s) && (SecretMap.FitsHuffman(s) ==> SecretMap.StoresHuffman(m, s));
    assert k in m && SecretMap.RestrictedTo(m[k].limits, s);
    SocketSecrets.HostSecretLeavesForItsHost(es, limits, sock, staged, p);
  }

  // The keys allowed to a pod's process are those secret_acl has for its cgroup.
  ghost predicate MirrorsAcl(allowed: set<seq<bv8>>, acl: set<Grants.AclKey>, cgroup: nat) {
    forall key :: key in allowed <==> exists k :: Bytes(k) == key && Grants.AclKey(cgroup, k) in acl
  }

  // While the access list stays within the grants, as it does over any run, every place a write is patched at holds a key that some binding with
  // the process's cgroup grants.
  lemma OnlyGrantedIsRedeemed(s: GrantsManager.State, settled: seq<Patch>, write: seq<bv8>, secrets: map<seq<bv8>, SecretValue>,
                              allowed: set<seq<bv8>>, cgroup: nat, i: nat) returns (k: string)
    requires (forall a :: a in s.acl ==> Grants.GrantedInACL(s.snapshot, s.bindings, a)) && MirrorsAcl(allowed, s.acl, cgroup)
    requires RedeemsOnly(settled, write, secrets, allowed) && i < |settled|
    ensures settled[i].off + 8 <= |write| && Bytes(k) == write[settled[i].off..settled[i].off + 8]
    ensures Grants.GrantedInACL(s.snapshot, s.bindings, Grants.AclKey(cgroup, k))
  {
    hide Marked, Bytes, Grants.GrantedInACL;
    var key := write[settled[i].off..settled[i].off + 8];
    assert key in allowed;
    k :| Bytes(k) == key && Grants.AclKey(cgroup, k) in s.acl;
  }
}
