/** What the patches do to the plaintext: when every placeholder comes out as its secret. */
module Substitution {
  import opened GF128Bytes
  import opened Arithmetic
  import opened RecordPatch

  // ---- Decryption ----

  // Decryption sees the same XOR: the patches act on the plaintext as they do on the ciphertext.
  lemma DecryptCommutes(c: seq<bv8>, keystream: seq<bv8>, d: seq<bv8>)
    requires |c| == |keystream| == |d|
    ensures XorBytes(XorBytes(c, d), keystream) == XorBytes(XorBytes(c, keystream), d)
  {
    hide Xor;
    forall k | 0 <= k < |c|
      ensures XorBytes(XorBytes(c, d), keystream)[k] == XorBytes(XorBytes(c, keystream), d)[k]
    {
      XorByteAssoc(c[k], d[k], keystream[k]);
    }
  }

  // A byte exactly one patch covers gets that patch's delta.
  lemma {:induction false} ByteDeltaOne(ps: seq<Patch>, i: nat, k: int)
    requires AllStaged(ps)
    requires i < |ps| && Covers(ps[i], k)
    requires forall j :: 0 <= j < |ps| && j != i ==> !Covers(ps[j], k)
    ensures ByteDelta(ps, k) == ps[i].delta[k - ps[i].off]
  {
    hide Xor;
    var n := |ps| - 1;
    if i == n {
      ByteDeltaNone(ps[..n], k);
      XorZeroByte(ps[i].delta[k - ps[i].off]);
    } else {
      ByteDeltaOne(ps[..n], i, k);
      XorZeroByte(ps[i].delta[k - ps[i].off]);
    }
  }

  predicate Apart(p: Patch, q: Patch) {
    p.len == 0 || q.len == 0 || p.off + p.len <= q.off || q.off + q.len <= p.off
  }

  predicate Disjoint(ps: seq<Patch>) {
    forall i, j :: 0 <= i < j < |ps| ==> Apart(ps[i], ps[j])
  }

  // The secrets behind the patches: patch i carries placeholder XOR secret over the plaintext.
  predicate Carries(p: Patch, plain: seq<bv8>, secret: seq<bv8>)
    requires StagedOrSkipped(p)
  {
    && |secret| >= p.len
    && (p.len > 0 ==> p.off + p.len <= |plain|)
    && forall j :: 0 <= j < p.len ==> p.delta[j] == Xor(plain[p.off + j], secret[j])
  }

  // The plaintext with each patched placeholder replaced by its secret, and nothing else changed.
  ghost predicate Substituted(after: seq<bv8>, before: seq<bv8>, ps: seq<Patch>, secrets: seq<seq<bv8>>)
    requires |ps| == |secrets|
  {
    && |after| == |before|
    && (forall i, k :: 0 <= i < |ps| && Covers(ps[i], k) && 0 <= k < |after| && k - ps[i].off < |secrets[i]| ==>
          after[k] == secrets[i][k - ps[i].off])
    && (forall k :: 0 <= k < |after| && (forall i :: 0 <= i < |ps| ==> !Covers(ps[i], k)) ==> after[k] == before[k])
  }

  lemma PatchesSubstitute(plain: seq<bv8>, ps: seq<Patch>, secrets: seq<seq<bv8>>)
    requires |ps| == |secrets| && Disjoint(ps)
    requires AllStaged(ps)
    requires forall i :: 0 <= i < |ps| ==> Carries(ps[i], plain, secrets[i])
    ensures Substituted(XorBytes(plain, BytesDelta(ps, |plain|)), plain, ps, secrets)
  {
    hide ByteDelta, Xor;
    var after := XorBytes(plain, BytesDelta(ps, |plain|));
    forall i, k | 0 <= i < |ps| && Covers(ps[i], k) && 0 <= k < |after| && k - ps[i].off < |secrets[i]|
      ensures after[k] == secrets[i][k - ps[i].off]
    {
      forall j | 0 <= j < |ps| && j != i ensures !Covers(ps[j], k) {
        assert if j < i then Apart(ps[j], ps[i]) else Apart(ps[i], ps[j]);
      }
      ByteDeltaOne(ps, i, k);
      XorCancels(plain[k], secrets[i][k - ps[i].off]);
    }
    forall k | 0 <= k < |after| && (forall i :: 0 <= i < |ps| ==> !Covers(ps[i], k))
      ensures after[k] == plain[k]
    {
      ByteDeltaNone(ps, k);
      XorZeroByte(plain[k]);
    }
  }

  // ---- Overlapping patches ----

  // How many patches cover byte k.
  function CoverCount(ps: seq<Patch>, k: int): (r: nat) {
    if ps == [] then 0 else CoverCount(ps[..|ps| - 1], k) + if Covers(ps[|ps| - 1], k) then 1 else 0
  }

  ghost predicate EachGives(ps: seq<Patch>, k: int, d: bv8)
    requires AllStaged(ps)
  {
    forall i :: 0 <= i < |ps| && Covers(ps[i], k) ==> ps[i].delta[k - ps[i].off] == d
  }

  // Patches that all give byte k the same delta cancel in pairs.
  lemma {:induction false} ByteDeltaSame(ps: seq<Patch>, k: int, d: bv8)
    requires AllStaged(ps) && EachGives(ps, k, d)
    ensures ByteDelta(ps, k) == if CoverCount(ps, k) % 2 == 1 then d else 0
  {
    hide Xor;
    if ps != [] {
      var n := |ps| - 1;
      ByteDeltaSame(ps[..n], k, d);
      XorZeroByte(d);
      XorZeroByte(0);
      XorSelf(d);
    }
  }

  lemma {:induction false} CountIsNone(ps: seq<Patch>, k: int)
    ensures CoverCount(ps, k) == 0 <==> forall i :: 0 <= i < |ps| ==> !Covers(ps[i], k)
  {
    if ps != [] {
      CountIsNone(ps[..|ps| - 1], k);
    }
  }

  function SecretByte(ps: seq<Patch>, secrets: seq<seq<bv8>>, i: nat, k: int): (r: bv8)
    requires i < |ps| == |secrets| && Covers(ps[i], k) && ps[i].len <= |secrets[i]|
  {
    secrets[i][k - ps[i].off]
  }

  // Where patches overlap at byte k their secrets agree on it and, if they are even in number, on the byte that was
  // there before.
  ghost predicate AgreeAt(plain: seq<bv8>, ps: seq<Patch>, secrets: seq<seq<bv8>>, k: int)
    requires 0 <= k < |plain| && |ps| == |secrets| && forall i :: 0 <= i < |ps| ==> ps[i].len <= |secrets[i]|
  {
    forall i, j :: 0 <= i < |ps| && 0 <= j < |ps| && Covers(ps[i], k) && Covers(ps[j], k) ==>
      && SecretByte(ps, secrets, i, k) == SecretByte(ps, secrets, j, k)
      && (CoverCount(ps, k) % 2 == 0 ==> SecretByte(ps, secrets, i, k) == plain[k])
  }

  ghost predicate AllCarry(plain: seq<bv8>, ps: seq<Patch>, secrets: seq<seq<bv8>>) {
    && |ps| == |secrets| && AllStaged(ps)
    && (forall i :: 0 <= i < |ps| ==> Carries(ps[i], plain, secrets[i]))
  }

  // What byte k comes out as.
  ghost predicate RightAt(after: seq<bv8>, plain: seq<bv8>, ps: seq<Patch>, secrets: seq<seq<bv8>>, k: int)
    requires AllCarry(plain, ps, secrets) && 0 <= k < |plain| == |after|
  {
    && (forall i :: 0 <= i < |ps| && Covers(ps[i], k) ==> after[k] == SecretByte(ps, secrets, i, k))
    && ((forall i :: 0 <= i < |ps| ==> !Covers(ps[i], k)) ==> after[k] == plain[k])
  }

  lemma SubstitutedAt(after: seq<bv8>, plain: seq<bv8>, ps: seq<Patch>, secrets: seq<seq<bv8>>)
    requires AllCarry(plain, ps, secrets) && |after| == |plain|
    ensures Substituted(after, plain, ps, secrets) <==> forall k :: 0 <= k < |plain| ==> RightAt(after, plain, ps, secrets, k)
  {
    hide Xor;
    if Substituted(after, plain, ps, secrets) {
      forall k | 0 <= k < |plain| ensures RightAt(after, plain, ps, secrets, k) {
      }
    }
    if forall k :: 0 <= k < |plain| ==> RightAt(after, plain, ps, secrets, k) {
      forall i, k | 0 <= i < |ps| && Covers(ps[i], k) && 0 <= k < |after| && k - ps[i].off < |secrets[i]|
        ensures after[k] == secrets[i][k - ps[i].off]
      {
        assert RightAt(after, plain, ps, secrets, k);
        assert SecretByte(ps, secrets, i, k) == secrets[i][k - ps[i].off];
      }
      forall k | 0 <= k < |after| && (forall i :: 0 <= i < |ps| ==> !Covers(ps[i], k)) ensures after[k] == plain[k] {
        assert RightAt(after, plain, ps, secrets, k);
      }
    }
  }

  // A byte comes out right if and only if the patches that cover it agree.
  lemma RightExactly(plain: seq<bv8>, ps: seq<Patch>, secrets: seq<seq<bv8>>, k: int)
    requires AllCarry(plain, ps, secrets) && 0 <= k < |plain|
    ensures RightAt(XorBytes(plain, BytesDelta(ps, |plain|)), plain, ps, secrets, k) <==> AgreeAt(plain, ps, secrets, k)
  {
    hide Xor, ByteDelta;
    var after := XorBytes(plain, BytesDelta(ps, |plain|));
    CountIsNone(ps, k);
    if CoverCount(ps, k) == 0 {
      ByteDeltaNone(ps, k);
      XorZeroByte(plain[k]);
    } else {
      var i :| 0 <= i < |ps| && Covers(ps[i], k);
      if RightAt(after, plain, ps, secrets, k) || AgreeAt(plain, ps, secrets, k) {
        AgreedByte(plain, ps, secrets, i, k);
      }
    }
  }

  // Once the secrets agree on byte k, it comes out as theirs or, under an even number of patches, as it was.
  lemma AgreedByte(plain: seq<bv8>, ps: seq<Patch>, secrets: seq<seq<bv8>>, i: nat, k: int)
    requires AllCarry(plain, ps, secrets) && 0 <= k < |plain| && i < |ps| && Covers(ps[i], k)
    requires forall j :: 0 <= j < |ps| && Covers(ps[j], k) ==> SecretByte(ps, secrets, i, k) == SecretByte(ps, secrets, j, k)
    ensures XorBytes(plain, BytesDelta(ps, |plain|))[k] == if CoverCount(ps, k) % 2 == 1 then SecretByte(ps, secrets, i, k) else plain[k]
  {
    hide Xor, ByteDelta;
    var s := SecretByte(ps, secrets, i, k);
    forall j | 0 <= j < |ps| && Covers(ps[j], k) ensures ps[j].delta[k - ps[j].off] == Xor(plain[k], s) {
      assert SecretByte(ps, secrets, j, k) == s && Carries(ps[j], plain, secrets[j]);
      assert ps[j].delta[k - ps[j].off] == Xor(plain[ps[j].off + (k - ps[j].off)], secrets[j][k - ps[j].off]);
    }
    ByteDeltaSame(ps, k, Xor(plain[k], s));
    XorCancels(plain[k], s);
    XorZeroByte(plain[k]);
  }

  ghost predicate Agree(plain: seq<bv8>, ps: seq<Patch>, secrets: seq<seq<bv8>>)
    requires AllCarry(plain, ps, secrets)
  {
    forall k :: 0 <= k < |plain| ==> AgreeAt(plain, ps, secrets, k)
  }

  // Any number of patches substitute their secrets if and only if wherever they overlap they agree.
  lemma SubstitutedExactly(plain: seq<bv8>, ps: seq<Patch>, secrets: seq<seq<bv8>>)
    requires AllCarry(plain, ps, secrets)
    ensures Substituted(XorBytes(plain, BytesDelta(ps, |plain|)), plain, ps, secrets) <==> Agree(plain, ps, secrets)
  {
    hide RightAt, AgreeAt, Substituted, XorBytes, BytesDelta;
    var after := XorBytes(plain, BytesDelta(ps, |plain|));
    SubstitutedAt(after, plain, ps, secrets);
    forall k | 0 <= k < |plain| ensures RightAt(after, plain, ps, secrets, k) <==> AgreeAt(plain, ps, secrets, k) {
      RightExactly(plain, ps, secrets, k);
    }
  }

  // Two patches that overlap at a byte whose secret differs from what was there do not both come out.
  lemma OverlapGarbles(plain: seq<bv8>, ps: seq<Patch>, secrets: seq<seq<bv8>>, k: nat)
    requires AllCarry(plain, ps, secrets) && |ps| == 2 && k < |plain| && Covers(ps[0], k) && Covers(ps[1], k)
    requires SecretByte(ps, secrets, 0, k) != plain[k]
    ensures !Substituted(XorBytes(plain, BytesDelta(ps, |plain|)), plain, ps, secrets)
  {
    hide Substituted, XorBytes, BytesDelta;
    SubstitutedExactly(plain, ps, secrets);
    TwoCover(ps, k);
    assert !AgreeAt(plain, ps, secrets, k);
  }

  lemma TwoCover(ps: seq<Patch>, k: int)
    requires |ps| == 2 && Covers(ps[0], k) && Covers(ps[1], k)
    ensures CoverCount(ps, k) == 2
  {
    var one := ps[..1];
    assert ps[..|ps| - 1] == one && one[..|one| - 1] == [];
    assert CoverCount(one, k) == 1;
  }

  // By their places alone: patches substitute whatever secrets they carry if and only if they are disjoint.
  lemma DisjointExactly(plain: seq<bv8>, places: seq<Patch>)
    requires AllStaged(places) && forall i :: 0 <= i < |places| && places[i].len > 0 ==> places[i].off + places[i].len <= |plain|
    ensures (forall ps, secrets :: SamePlaces(ps, places) && AllCarry(plain, ps, secrets) ==> Agree(plain, ps, secrets))
            <==> Disjoint(places)
  {
    hide Agree, AllCarry;
    if Disjoint(places) {
      forall ps, secrets | SamePlaces(ps, places) && AllCarry(plain, ps, secrets) ensures Agree(plain, ps, secrets) {
        DisjointAgree(plain, ps, secrets);
      }
    } else {
      var i, j :| 0 <= i < j < |places| && !Apart(places[i], places[j]);
      var ps, secrets := Disagreeing(plain, places, i, j);
    }
  }

  lemma DisjointAgree(plain: seq<bv8>, ps: seq<Patch>, secrets: seq<seq<bv8>>)
    requires AllCarry(plain, ps, secrets) && Disjoint(ps)
    ensures Agree(plain, ps, secrets)
  {
    PatchesSubstitute(plain, ps, secrets);
    SubstitutedExactly(plain, ps, secrets);
  }

  // Two overlapping places, and secrets that are what is there already but for the first one's first common byte.
  lemma Disagreeing(plain: seq<bv8>, places: seq<Patch>, i: nat, j: nat) returns (ps: seq<Patch>, secrets: seq<seq<bv8>>)
    requires AllStaged(places) && forall i :: 0 <= i < |places| && places[i].len > 0 ==> places[i].off + places[i].len <= |plain|
    requires i < j < |places| && !Apart(places[i], places[j])
    ensures SamePlaces(ps, places) && AllCarry(plain, ps, secrets) && !Agree(plain, ps, secrets)
  {
    hide Xor, PatchOver, SecretOver, Carries;
    var k := if places[i].off < places[j].off then places[j].off else places[i].off;
    secrets := seq(|places|, m requires 0 <= m < |places| => SecretOver(plain, places[m], if m == i then k else |plain|));
    ps := seq(|places|, m requires 0 <= m < |places| => PatchOver(plain, places[m], SecretOver(plain, places[m], if m == i then k else |plain|)));
    forall m | 0 <= m < |ps|
      ensures StagedOrSkipped(ps[m]) && Carries(ps[m], plain, secrets[m])
      ensures ps[m].off == places[m].off && ps[m].len == places[m].len
    {
      OverCarries(plain, places[m], if m == i then k else |plain|);
    }
    OverBytes(plain, places[i], k, k);
    OverBytes(plain, places[j], |plain|, k);
    Disagree(plain, ps, secrets, i, j, k);
  }

  lemma OverCarries(plain: seq<bv8>, p: Patch, k: nat)
    requires StagedOrSkipped(p) && (p.len > 0 ==> p.off + p.len <= |plain|)
    ensures var s := SecretOver(plain, p, k); var q := PatchOver(plain, p, s);
            StagedOrSkipped(q) && Carries(q, plain, s) && q.off == p.off && q.len == p.len
  {
    hide Xor;
  }

  lemma OverBytes(plain: seq<bv8>, p: Patch, k: nat, at: nat)
    requires p.len > 0 && p.off + p.len <= |plain| && Covers(p, at)
    ensures SecretOver(plain, p, k)[at - p.off] == if at == k then plain[at] + 1 else plain[at]
  {
  }

  lemma Disagree(plain: seq<bv8>, ps: seq<Patch>, secrets: seq<seq<bv8>>, i: nat, j: nat, k: nat)
    requires AllCarry(plain, ps, secrets) && i < |ps| && j < |ps| && Covers(ps[i], k) && Covers(ps[j], k)
    requires k < |plain| && secrets[i][k - ps[i].off] == plain[k] + 1 && secrets[j][k - ps[j].off] == plain[k]
    ensures !Agree(plain, ps, secrets)
  {
    assert SecretByte(ps, secrets, i, k) != SecretByte(ps, secrets, j, k);
    assert !AgreeAt(plain, ps, secrets, k);
  }

  // The bytes at p, with byte k (if there) changed.
  function SecretOver(plain: seq<bv8>, p: Patch, k: nat): (s: seq<bv8>)
    requires p.len > 0 ==> p.off + p.len <= |plain|
    ensures |s| == p.len
  {
    seq(p.len, t requires 0 <= t < p.len => if p.off + t == k then plain[p.off + t] + 1 else plain[p.off + t])
  }

  // The patch at p that carries s.
  function PatchOver(plain: seq<bv8>, p: Patch, s: seq<bv8>): (r: Patch)
    requires (p.len > 0 ==> p.off + p.len <= |plain|) && |s| == p.len
  {
    Patch(p.off, p.len, seq(SECRET_MAX_LEN, t requires 0 <= t < SECRET_MAX_LEN => if t < p.len then Xor(plain[p.off + t], s[t]) else 0))
  }

  // What the receiver decrypts, with any keystream: the plaintext with every patched placeholder replaced by its
  // secret, if and only if the patches agree where they overlap; always, if they are disjoint.
  lemma RewrittenRecord(c: seq<bv8>, keystream: seq<bv8>, ps: seq<Patch>, secrets: seq<seq<bv8>>)
    requires |c| == |keystream| && AllCarry(XorBytes(c, keystream), ps, secrets)
    ensures var plain := XorBytes(c, keystream); var got := XorBytes(XorBytes(c, BytesDelta(ps, |c|)), keystream);
            && (Substituted(got, plain, ps, secrets) <==> Agree(plain, ps, secrets))
            && (Disjoint(ps) ==> Substituted(got, plain, ps, secrets))
  {
    hide BytesDelta, Xor, Substituted, Agree;
    DecryptCommutes(c, keystream, BytesDelta(ps, |c|));
    SubstitutedExactly(XorBytes(c, keystream), ps, secrets);
    if Disjoint(ps) {
      DisjointAgree(XorBytes(c, keystream), ps, secrets);
    }
  }
}
