/** When the tag programs leave a record right: exactly while every applied patch lies inside the ciphertext and the
    first 2^14 bytes. The code does not look: it compares a patch's length with the record's, not its end. */
module RecordFit {
  import opened GF128
  import opened GF128Bytes
  import opened GF128Powers
  import opened RecordPatch

  // ---- Single blocks ----

  lemma {:induction false} PowOfOne(n: nat)
    ensures Pow(One(), n) == One()
  {
    hide Mul, One;
    if n > 0 {
      PowOfOne(n - 1);
      MulOne(One());
    }
  }

  lemma {:induction false} GhashByZero(bs: seq<Elem>)
    ensures Ghash(Zero(), bs) == Zero()
  {
    hide Mul;
    if bs != [] {
      MulZero(Add(Ghash(Zero(), bs[..|bs| - 1]), bs[|bs| - 1]));
    }
  }

  // A block is the zero of the field only if all its bytes are 0.
  lemma ZeroBlock(b: seq<bv8>, j: nat)
    requires |b| == 16 && ToElem(b) == Zero() && j < 16
    ensures b[j] == 0
  {
    var z := Zero();
    forall r | 0 <= r < 8 ensures !ByteBit(b[j], r) {
      assert ToElem(b)[8 * j + r] == z[8 * j + r];
      assert (8 * j + r) / 8 == j && (8 * j + r) % 8 == r;
    }
    NoBits(b[j]);
  }

  lemma NoBits(a: bv8)
    requires forall r | 0 <= r < 8 :: !ByteBit(a, r)
    ensures a == 0
  {
    assert !ByteBit(a, 0) && !ByteBit(a, 1) && !ByteBit(a, 2) && !ByteBit(a, 3);
    assert !ByteBit(a, 4) && !ByteBit(a, 5) && !ByteBit(a, 6) && !ByteBit(a, 7);
  }

  // With the subkey 1, a stray delta of one block is that block.
  lemma StrayOfOneBlock(ps: seq<Patch>, ctLen: nat, b: nat)
    requires AllStaged(ps) && b < BlockCount(ctLen)
    requires forall k :: 0 <= k < 16 * BlockCount(ctLen) && k / 16 != b ==> StrayDelta(ps, ctLen)[k] == 0
    ensures Ghash(One(), StrayInput(ps, ctLen)) == ToElem(PaddedBlock(StrayDelta(ps, ctLen), b))
  {
    hide ToElem, Ghash, Mul, ByteDelta, StrayDelta;
    var n := BlockCount(ctLen) + 1;
    var d := StrayDelta(ps, ctLen);
    var e := ToElem(PaddedBlock(d, b));
    forall i | 0 <= i < n - 1 && i != b ensures StrayInput(ps, ctLen)[i] == Zero() {
      forall j | 0 <= j < 16 ensures PaddedBlock(d, i)[j] == 0 {
        assert (16 * i + j) / 16 == i;
      }
      ToElemZero(PaddedBlock(d, i));
    }
    assert StrayInput(ps, ctLen) == Single(n, b, e);
    GhashSingle(One(), n, b, e);
    PowOfOne(n - b);
    MulOneRight(e);
  }

  // ---- By place: all deltas and all subkeys ----

  function NoDelta(): (d: seq<bv8>)
    ensures |d| == SECRET_MAX_LEN
  {
    seq(SECRET_MAX_LEN, _ => 0)
  }

  // A patch at p that changes its last byte only.
  function LastByte(p: Patch): (r: Patch) {
    Patch(p.off, p.len, if 1 <= p.len <= SECRET_MAX_LEN then NoDelta()[p.len - 1 := 1] else NoDelta())
  }

  function OnlyLastOf(places: seq<Patch>, i: nat): (ps: seq<Patch>)
    requires AllStaged(places)
    ensures AllStaged(ps) && SamePlaces(ps, places)
  {
    seq(|places|, m requires 0 <= m < |places| => if m == i then LastByte(places[m]) else places[m].(delta := NoDelta()))
  }

  // Then one byte changes.
  lemma {:induction false} OneByteChanged(places: seq<Patch>, i: nat, n: nat, k: int)
    requires AllStaged(places) && i < |places| && places[i].len > 0 && n <= |places|
    ensures ByteDelta(OnlyLastOf(places, i)[..n], k) == if i < n && k == places[i].off + places[i].len - 1 then 1 else 0
  {
    hide Xor;
    var ps := OnlyLastOf(places, i);
    if n > 0 {
      OneByteChanged(places, i, n - 1, k);
      assert ps[..n][..n - 1] == ps[..n - 1];
      XorZeroByte(0);
      XorZeroByte(1);
    }
  }

  // A patch that ends past the ciphertext or the first 2^14 bytes: a delta and a subkey for which the record breaks.
  lemma Overrun(places: seq<Patch>, i: nat, ctLen: nat) returns (ps: seq<Patch>, h: Elem)
    requires AllStaged(places) && i < |places| && !Inside(places[i], ctLen)
    ensures AllStaged(ps) && SamePlaces(ps, places) && !Fits(ps, ctLen, h)
  {
    hide ByteDelta, ToElem, Ghash;
    ps := OnlyLastOf(places, i);
    assert ps[..|ps|] == ps;
    var last := places[i].off + places[i].len - 1;
    forall k ensures ByteDelta(ps, k) == if k == last then 1 else 0 {
      OneByteChanged(places, i, |places|, k);
    }
    hide OnlyLastOf;
    assert ByteDelta(ps, last) == 1;
    if last >= ctLen {
      h := Zero();
      GhashByZero(StrayInput(ps, ctLen));
      if last < ctLen + TAG_LEN && ToElem(OverTag(ps, ctLen)) == Zero() {
        ZeroBlock(OverTag(ps, ctLen), last - ctLen);
      }
    } else {
      h := One();
      ToElemZero(OverTag(ps, ctLen));
      StrayOfOneBlock(ps, ctLen, last / 16);
      var block := PaddedBlock(StrayDelta(ps, ctLen), last / 16);
      assert block[last % 16] == 1;
      if ToElem(block) == Zero() {
        ZeroBlock(block, last % 16);
      }
    }
  }

  // Patches at given places fit the record for all deltas and all subkeys if and only if each ends inside the
  // ciphertext and the first 2^14 bytes.
  lemma FitsExactly(places: seq<Patch>, ctLen: nat)
    requires AllStaged(places)
    ensures (forall ps, h :: AllStaged(ps) && SamePlaces(ps, places) ==> Fits(ps, ctLen, h)) <==> AllInside(places, ctLen)
  {
    hide Fits;
    if AllInside(places, ctLen) {
      forall ps, h | AllStaged(ps) && SamePlaces(ps, places) ensures Fits(ps, ctLen, h) {
        InsideFits(ps, ctLen, h);
      }
    } else {
      var i :| 0 <= i < |places| && !Inside(places[i], ctLen);
      var ps, h := Overrun(places, i, ctLen);
    }
  }

  // ---- By delta: given patches, all subkeys ----

  // For records no longer than TLS lets them be, patches fit for every subkey if and only if they change nothing past
  // the ciphertext and the first 2^14 bytes.
  lemma GivenPatchesFitExactly(ps: seq<Patch>, ctLen: nat)
    requires AllStaged(ps) && ctLen <= MAX_PLAINTEXT + 16
    ensures (forall h :: Fits(ps, ctLen, h)) <==> NothingFrom(ps, if ctLen < MAX_PLAINTEXT then ctLen else MAX_PLAINTEXT)
  {
    hide ByteDelta, ToElem, Ghash;
    var from := if ctLen < MAX_PLAINTEXT then ctLen else MAX_PLAINTEXT;
    if NothingFrom(ps, from) {
      forall h ensures Fits(ps, ctLen, h) {
        NothingBehindFits(ps, ctLen, h);
      }
    }
    if forall h :: Fits(ps, ctLen, h) {
      assert Fits(ps, ctLen, Zero()) && Fits(ps, ctLen, One());
      GhashByZero(StrayInput(ps, ctLen));
      forall k | ctLen <= k < ctLen + TAG_LEN ensures ByteDelta(ps, k) == 0 {
        ZeroBlock(OverTag(ps, ctLen), k - ctLen);
        assert OverTag(ps, ctLen)[k - ctLen] == ByteDelta(ps, ctLen + (k - ctLen));
      }
      forall k | from <= k < ctLen ensures ByteDelta(ps, k) == 0 {
        LastBlockSeen(ps, ctLen, k);
      }
    }
  }

  // The one block a record can have past 2^14.
  lemma LastBlockSeen(ps: seq<Patch>, ctLen: nat, k: nat)
    requires AllStaged(ps) && MAX_PLAINTEXT <= k < ctLen <= MAX_PLAINTEXT + 16
    requires Ghash(One(), StrayInput(ps, ctLen)) == Zero()
    requires forall j :: ctLen <= j < ctLen + TAG_LEN ==> ByteDelta(ps, j) == 0
    ensures ByteDelta(ps, k) == 0
  {
    hide ByteDelta, ToElem, Ghash;
    StrayOfOneBlock(ps, ctLen, 1024);
    ZeroBlock(PaddedBlock(StrayDelta(ps, ctLen), 1024), k - MAX_PLAINTEXT);
    assert PaddedBlock(StrayDelta(ps, ctLen), 1024)[k - MAX_PLAINTEXT] == StrayDelta(ps, ctLen)[k];
  }

  // ---- Failing records ----

  // Whether a patch ends up inside, before the call: not where the segment goes on behind the record's ciphertext, as
  // for a write longer than one record.
  lemma SettledInside(p: Patch, recordLen: nat, nonceLen: nat, payloadOff: nat, segment: nat)
    requires Staged(p) && recordLen >= TAG_LEN + nonceLen + p.len
    ensures var q := Settled(p, recordLen, nonceLen, payloadOff + HDR_LEN + nonceLen, segment);
            && (q == p <==> payloadOff + HDR_LEN + nonceLen + p.off + p.len <= segment)
            && (Inside(q, recordLen - TAG_LEN - nonceLen) <==>
                  (payloadOff + HDR_LEN + nonceLen + p.off + p.len > segment
                   || (p.off + p.len <= recordLen - TAG_LEN - nonceLen && p.off + p.len <= MAX_PLAINTEXT)))
  {
  }

  // The first full TLS 1.2 record of a write that has its placeholder at byte 20000, in a segment with the next record:
  // the patch is applied, in the next record, and the record does not survive it for any subkey.
  lemma NextRecordHit(delta: seq<bv8>, h: Elem)
    requires |delta| == SECRET_MAX_LEN && delta[0] != 0
    ensures SettledAll([Patch(20000, 32, delta)], 16408, 8, 0, 32829) == [Patch(20000, 32, delta)]
    ensures !Fits([Patch(20000, 32, delta)], 16384, h)
  {
    hide ToElem, Ghash;
    var p := Patch(20000, 32, delta);
    OnePatch(p);
    hide ByteDelta;
    assert ByteDelta([p], 20000) == delta[0];
  }

  // A placeholder that straddles the end of its record, right where the tag is: for some subkey the record breaks.
  lemma TagHit(delta: seq<bv8>)
    requires |delta| == SECRET_MAX_LEN && delta[20] != 0
    ensures SettledAll([Patch(16364, 32, delta)], 16408, 8, 0, 16413) == [Patch(16364, 32, delta)]
    ensures !Fits([Patch(16364, 32, delta)], 16384, Zero())
  {
    hide ToElem, Ghash;
    var p := Patch(16364, 32, delta);
    OnePatch(p);
    hide ByteDelta;
    GhashByZero(StrayInput([p], 16384));
    assert OverTag([p], 16384)[0] == delta[20];
    if ToElem(OverTag([p], 16384)) == Zero() {
      ZeroBlock(OverTag([p], 16384), 0);
    }
  }
}
