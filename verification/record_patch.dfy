/** Rewriting placeholders inside an encrypted AES-GCM record.

    A record is payload bytes of a TCP segment: a 5-byte header, an explicit nonce, the ciphertext and
    a 16-byte tag. AES itself does not matter here: a record has a keystream (one byte per ciphertext
    byte) and a tag mask, the encrypted first counter block. */
module RecordPatch {
  import opened GF128
  import opened GF128Bytes
  import opened GF128Powers
  import opened Arithmetic

  const SECRET_MAX_LEN := 128
  const TAG_LEN := 16
  const HDR_LEN := 5
  const MAX_PATCHES := 4

  // The largest TLS record, and the largest plaintext of one.
  const MAX_RECORD_LEN := 16384 + 2048
  const MAX_PLAINTEXT := 16384

  // One staged rewrite: placeholder XOR secret for the len bytes at off. A len of 0 marks a patch
  // that was not applied.
  datatype Patch = Patch(off: nat, len: nat, delta: seq<bv8>)

  predicate Staged(p: Patch) {
    StagedOrSkipped(p) && p.len > 0
  }

  predicate StagedOrSkipped(p: Patch) {
    p.off < TWO32 && p.len <= SECRET_MAX_LEN && |p.delta| == SECRET_MAX_LEN
  }

  predicate AllStaged(ps: seq<Patch>) {
    forall i :: 0 <= i < |ps| ==> StagedOrSkipped(ps[i])
  }

  predicate Covers(p: Patch, k: int) {
    p.off <= k < p.off + p.len
  }

  function PatchByte(p: Patch, k: int): (r: bv8)
    requires StagedOrSkipped(p)
  {
    if Covers(p, k) then p.delta[k - p.off] else 0
  }

  // What the patches together XOR into byte k.
  function ByteDelta(ps: seq<Patch>, k: int): (r: bv8)
    requires AllStaged(ps)
  {
    if ps == [] then 0 else Xor(ByteDelta(ps[..|ps| - 1], k), PatchByte(ps[|ps| - 1], k))
  }

  function BytesDelta(ps: seq<Patch>, n: nat): (d: seq<bv8>)
    requires AllStaged(ps)
    ensures |d| == n
  {
    seq(n, k => ByteDelta(ps, k))
  }

  // The same places, whatever the deltas.
  predicate SamePlaces(ps: seq<Patch>, qs: seq<Patch>) {
    |ps| == |qs| && forall i :: 0 <= i < |ps| ==> ps[i].off == qs[i].off && ps[i].len == qs[i].len
  }

  // Every applied patch lies inside the ciphertext, in the first 2^14 bytes.
  predicate Inside(p: Patch, ctLen: nat) {
    p.len > 0 ==> p.off + p.len <= ctLen && p.off + p.len <= MAX_PLAINTEXT
  }

  lemma {:induction false} ByteDeltaNone(ps: seq<Patch>, k: int)
    requires AllStaged(ps)
    requires forall i :: 0 <= i < |ps| ==> !Covers(ps[i], k)
    ensures ByteDelta(ps, k) == 0
  {
    hide Xor;
    if ps != [] {
      ByteDeltaNone(ps[..|ps| - 1], k);
      XorZeroByte(0);
    }
  }

  // ---- Authentication: section 7.1 of NIST SP 800-38D ----

  // Block i of the ciphertext, zero-padded.
  function PaddedBlock(c: seq<bv8>, i: nat): (b: seq<bv8>)
    ensures |b| == 16
  {
    seq(16, j requires 0 <= j < 16 => if 16 * i + j < |c| then c[16 * i + j] else 0)
  }

  function BlockCount(n: nat): (r: nat) {
    (n + 15) / 16
  }

  function Blocks(c: seq<bv8>): (bs: seq<Elem>)
    ensures |bs| == BlockCount(|c|)
  {
    seq(BlockCount(|c|), i requires 0 <= i < BlockCount(|c|) => ToElem(PaddedBlock(c, i)))
  }

  // What authenticates a record besides its ciphertext: the subkey, the padded additional data, the
  // length block and the tag mask.
  datatype Auth = Auth(h: Elem, aad: seq<Elem>, lengths: Elem, mask: Elem)

  function GcmTag(auth: Auth, c: seq<bv8>): (r: Elem) {
    Add(Ghash(auth.h, auth.aad + Blocks(c) + [auth.lengths]), auth.mask)
  }

  // The blocks by which the patches change the GHASH input from the ciphertext on.
  function DeltaInput(ps: seq<Patch>, ctLen: nat): (ds: seq<Elem>)
    requires AllStaged(ps)
    ensures |ds| == BlockCount(ctLen) + 1
  {
    Blocks(BytesDelta(ps, ctLen)) + [Zero()]
  }

  lemma BlocksXor(c: seq<bv8>, d: seq<bv8>)
    requires |c| == |d|
    ensures Blocks(XorBytes(c, d)) == AddAll(Blocks(c), Blocks(d))
  {
    hide ToElem, Add, Xor;
    forall i | 0 <= i < BlockCount(|c|)
      ensures Blocks(XorBytes(c, d))[i] == Add(Blocks(c)[i], Blocks(d)[i])
    {
      XorZeroByte(0);
      assert PaddedBlock(XorBytes(c, d), i) == XorBytes(PaddedBlock(c, i), PaddedBlock(d, i));
      ToElemXor(PaddedBlock(c, i), PaddedBlock(d, i));
    }
  }

  // The tag delta repairs the tag: XORed into the tag of the old ciphertext it gives that of the new.
  lemma TagRepaired(auth: Auth, c: seq<bv8>, ps: seq<Patch>)
    requires AllStaged(ps)
    ensures GcmTag(auth, XorBytes(c, BytesDelta(ps, |c|)))
         == Add(GcmTag(auth, c), Ghash(auth.h, DeltaInput(ps, |c|)))
  {
    hide Add, Ghash, Blocks, BytesDelta;
    var d := BytesDelta(ps, |c|);
    BlocksXor(c, d);
    var g, e := Ghash(auth.h, auth.aad + Blocks(c) + [auth.lengths]), Ghash(auth.h, DeltaInput(ps, |c|));
    IncrementalDelta(auth.h, auth.aad, Blocks(c), Blocks(XorBytes(c, d)), auth.lengths, DeltaInput(ps, |c|));
    AddAssoc(g, e, auth.mask);
    AddComm(e, auth.mask);
    AddAssoc(g, auth.mask, e);
  }

  // ---- What the tag program sees ----

  // The changed bytes of the ciphertext's blocks as the tag program sees them: none from 2^14 on, and those past the
  // end of the ciphertext in its last block.
  function SeenDelta(ps: seq<Patch>, ctLen: nat): (d: seq<bv8>)
    requires AllStaged(ps)
    ensures |d| == 16 * BlockCount(ctLen)
  {
    seq(16 * BlockCount(ctLen), k => if k < MAX_PLAINTEXT then ByteDelta(ps, k) else 0)
  }

  function SeenInput(ps: seq<Patch>, ctLen: nat): (ds: seq<Elem>)
    requires AllStaged(ps)
    ensures |ds| == BlockCount(ctLen) + 1
  {
    Blocks(SeenDelta(ps, ctLen)) + [Zero()]
  }

  // Where that differs from the changed ciphertext: the bytes seen past its end, and those of it not seen.
  function StrayDelta(ps: seq<Patch>, ctLen: nat): (d: seq<bv8>)
    requires AllStaged(ps)
    ensures |d| == 16 * BlockCount(ctLen)
  {
    seq(16 * BlockCount(ctLen), k => if k < ctLen <==> k < MAX_PLAINTEXT then 0 else ByteDelta(ps, k))
  }

  function StrayInput(ps: seq<Patch>, ctLen: nat): (ds: seq<Elem>)
    requires AllStaged(ps)
    ensures |ds| == BlockCount(ctLen) + 1
  {
    Blocks(StrayDelta(ps, ctLen)) + [Zero()]
  }

  lemma SeenIsDeltaAndStray(h: Elem, ps: seq<Patch>, ctLen: nat)
    requires AllStaged(ps)
    ensures Ghash(h, SeenInput(ps, ctLen)) == Add(Ghash(h, DeltaInput(ps, ctLen)), Ghash(h, StrayInput(ps, ctLen)))
  {
    hide ToElem, Add, Xor, Ghash, ByteDelta;
    AddZero(Zero());
    var d, e := DeltaInput(ps, ctLen), StrayInput(ps, ctLen);
    forall b | 0 <= b <= BlockCount(ctLen) ensures SeenInput(ps, ctLen)[b] == Add(d[b], e[b]) {
      if b < BlockCount(ctLen) {
        SeenBlock(ps, ctLen, b);
        ToElemXor(PaddedBlock(BytesDelta(ps, ctLen), b), PaddedBlock(StrayDelta(ps, ctLen), b));
      }
    }
    assert SeenInput(ps, ctLen) == AddAll(d, e);
    GhashAdd(h, d, e);
  }

  lemma SeenBlock(ps: seq<Patch>, ctLen: nat, b: nat)
    requires AllStaged(ps) && b < BlockCount(ctLen)
    ensures PaddedBlock(SeenDelta(ps, ctLen), b) == XorBytes(PaddedBlock(BytesDelta(ps, ctLen), b), PaddedBlock(StrayDelta(ps, ctLen), b))
  {
    hide Xor, ByteDelta;
    var s, t := PaddedBlock(SeenDelta(ps, ctLen), b), XorBytes(PaddedBlock(BytesDelta(ps, ctLen), b), PaddedBlock(StrayDelta(ps, ctLen), b));
    forall j | 0 <= j < 16 ensures s[j] == t[j] {
      XorZeroByte(ByteDelta(ps, 16 * b + j));
      XorSelf(ByteDelta(ps, 16 * b + j));
      XorZeroByte(0);
    }
  }

  lemma XorSelf(a: bv8)
    ensures Xor(a, a) == 0
  {
  }

  // What the patches XOR into the 16 bytes of the tag themselves.
  function OverTag(ps: seq<Patch>, ctLen: nat): (d: seq<bv8>)
    requires AllStaged(ps)
    ensures |d| == TAG_LEN
  {
    seq(TAG_LEN, j => ByteDelta(ps, ctLen + j))
  }

  // The patches fit a record: what they do to the tag is what the tag program got wrong, and behind the tag they do
  // nothing.
  ghost predicate Fits(ps: seq<Patch>, ctLen: nat, h: Elem)
    requires AllStaged(ps)
  {
    ToElem(OverTag(ps, ctLen)) == Ghash(h, StrayInput(ps, ctLen)) && NothingFrom(ps, ctLen + TAG_LEN)
  }

  // The patches change no byte from k0 on.
  ghost predicate NothingFrom(ps: seq<Patch>, k0: nat)
    requires AllStaged(ps)
  {
    forall k :: k >= k0 ==> ByteDelta(ps, k) == 0
  }

  // Patches that do nothing from the end of the ciphertext on and from 2^14 on fit, for every subkey.
  lemma NothingBehindFits(ps: seq<Patch>, ctLen: nat, h: Elem)
    requires AllStaged(ps)
    requires forall k :: k >= ctLen || k >= MAX_PLAINTEXT ==> ByteDelta(ps, k) == 0
    ensures Fits(ps, ctLen, h)
  {
    hide ByteDelta, ToElem, Ghash;
    ToElemZero(OverTag(ps, ctLen));
    forall b | 0 <= b < BlockCount(ctLen) ensures StrayInput(ps, ctLen)[b] == Zero() {
      ToElemZero(PaddedBlock(StrayDelta(ps, ctLen), b));
    }
    assert StrayInput(ps, ctLen) == Zeros(BlockCount(ctLen) + 1);
    GhashZeros(h, BlockCount(ctLen) + 1);
  }

  predicate AllInside(ps: seq<Patch>, ctLen: nat) {
    forall i :: 0 <= i < |ps| ==> Inside(ps[i], ctLen)
  }

  lemma InsideFits(ps: seq<Patch>, ctLen: nat, h: Elem)
    requires AllStaged(ps) && AllInside(ps, ctLen)
    ensures Fits(ps, ctLen, h)
  {
    hide ByteDelta, Fits;
    forall k | k >= ctLen || k >= MAX_PLAINTEXT ensures ByteDelta(ps, k) == 0 {
      forall i | 0 <= i < |ps| ensures !Covers(ps[i], k) {
        assert Inside(ps[i], ctLen);
      }
      ByteDeltaNone(ps, k);
    }
    NothingBehindFits(ps, ctLen, h);
  }

  // ---- The tc programs ----

  function NewBytes(old_: seq<bv8>, at: nat, ps: seq<Patch>): (r: seq<bv8>)
    requires AllStaged(ps)
    ensures |r| == |old_|
  {
    seq(|old_|, k requires 0 <= k < |old_| => Xor(old_[k], ByteDelta(ps, k - at)))
  }

  // The patch as the egress program leaves it: skipped when the record is too short for the secret,
  // or when the segment does not hold the bytes.
  function Settled(p: Patch, recordLen: nat, nonceLen: nat, at: nat, segment: nat): (q: Patch)
    ensures StagedOrSkipped(p) ==> StagedOrSkipped(q)
  {
    if recordLen < TAG_LEN + nonceLen + p.len || at + p.off + p.len > segment then p.(len := 0) else p
  }

  function SettledAll(ps: seq<Patch>, recordLen: nat, nonceLen: nat, at: nat, segment: nat): (qs: seq<Patch>)
    ensures |qs| == |ps|
    ensures AllStaged(ps) ==> AllStaged(qs)
  {
    seq(|ps|, i requires 0 <= i < |ps| => Settled(ps[i], recordLen, nonceLen, at, segment))
  }

  // clamp_write_len: ((len - 1) & 127) + 1 on unsigned 32-bit words.
  function ClampWriteLen(len: nat): (n: nat)
    requires len < TWO32
    ensures 1 <= n <= SECRET_MAX_LEN
    ensures 1 <= len <= SECRET_MAX_LEN ==> n == len
  {
    ((len - 1) % TWO32) % SECRET_MAX_LEN + 1
  }

  lemma NewBytesAppend(old_: seq<bv8>, at: nat, ps: seq<Patch>, p: Patch)
    requires AllStaged(ps) && StagedOrSkipped(p)
    ensures AllStaged(ps + [p])
    ensures forall k :: 0 <= k < |old_| ==>
              NewBytes(old_, at, ps + [p])[k] == Xor(NewBytes(old_, at, ps)[k], PatchByte(p, k - at))
  {
    hide Xor;
    forall k | 0 <= k < |old_|
      ensures NewBytes(old_, at, ps + [p])[k] == Xor(NewBytes(old_, at, ps)[k], PatchByte(p, k - at))
    {
      assert (ps + [p])[..|ps|] == ps;
      XorByteAssoc(old_[k], ByteDelta(ps, k - at), PatchByte(p, k - at));
    }
  }

  // One more patch: its bytes moved by its delta, the others stayed.
  lemma EgressStep(before: seq<bv8>, at: nat, ps: seq<Patch>, p: Patch, after: seq<bv8>)
    requires AllStaged(ps) && StagedOrSkipped(p) && |after| == |before|
    requires forall k :: 0 <= k < |before| ==>
               after[k] == if Covers(p, k - at) then Xor(NewBytes(before, at, ps)[k], p.delta[k - at - p.off])
                           else NewBytes(before, at, ps)[k]
    ensures AllStaged(ps + [p]) && after == NewBytes(before, at, ps + [p])
  {
    hide Xor, ByteDelta;
    NewBytesAppend(before, at, ps, p);
    forall k | 0 <= k < |before| ensures after[k] == NewBytes(before, at, ps + [p])[k] {
      XorZeroByte(NewBytes(before, at, ps)[k]);
    }
  }

  // tc_egress_patch: XOR every staged patch the segment holds into it, one after the other. `at` is
  // where the ciphertext starts.
  method TcEgressPatch(skb: array<bv8>, payloadOff: nat, recordLen: nat, nonceLen: nat, staged: seq<Patch>)
    returns (settled: seq<Patch>, applied: nat)
    requires forall i :: 0 <= i < |staged| ==> Staged(staged[i])
    modifies skb
    ensures settled == SettledAll(staged, recordLen, nonceLen, payloadOff + HDR_LEN + nonceLen, skb.Length)
    ensures AllStaged(settled)
    ensures |settled| == |staged| && forall i :: 0 <= i < |staged| ==>
              settled[i] == if recordLen >= 16 + nonceLen + staged[i].len
                               && payloadOff + 5 + nonceLen + staged[i].off + staged[i].len <= skb.Length
                            then staged[i] else staged[i].(len := 0)
    ensures skb[..] == NewBytes(old(skb[..]), payloadOff + HDR_LEN + nonceLen, settled)
    ensures applied == 0 <==> forall i :: 0 <= i < |settled| ==> settled[i].len == 0
  {
    hide Xor, ByteDelta;
    ghost var before := skb[..];
    var at := payloadOff + HDR_LEN + nonceLen;
    settled, applied := [], 0;
    forall k | 0 <= k < |before| ensures NewBytes(before, at, settled)[k] == before[k] {
      NewBytesOutside(before, at, settled, k);
    }
    for i := 0 to |staged|
      invariant settled == SettledAll(staged[..i], recordLen, nonceLen, at, skb.Length) && AllStaged(settled)
      invariant skb[..] == NewBytes(before, at, settled)
      invariant applied == 0 ==> forall k :: 0 <= k < |settled| ==> settled[k].len == 0
      invariant applied > 0 ==> exists k :: 0 <= k < |settled| && settled[k].len != 0
    {
      var p := staged[i];
      var q := p.(len := 0);
      if recordLen >= TAG_LEN + nonceLen + p.len {
        var n := ClampWriteLen(p.len);
        if at + p.off + n <= skb.Length {
          q := p;
          XorAt(skb, at + p.off, n, p.delta);
          applied := applied + 1;
        }
      }
      EgressStep(before, at, settled, q, skb[..]);
      ghost var was := settled;
      settled := settled + [q];
      assert settled[i] == q && forall k :: 0 <= k < i ==> settled[k] == was[k];
      assert settled == SettledAll(staged[..i + 1], recordLen, nonceLen, at, skb.Length);
    }
    assert staged[..|staged|] == staged;
  }

  // Load n bytes, XOR the delta into them and store them back.
  method XorAt(skb: array<bv8>, at: nat, n: nat, delta: seq<bv8>)
    requires n <= |delta| && at + n <= skb.Length
    modifies skb
    ensures forall k :: 0 <= k < skb.Length ==>
              skb[k] == if at <= k < at + n then Xor(old(skb[k]), delta[k - at]) else old(skb[k])
  {
    hide Xor;
    for i := 0 to n
      invariant forall k :: 0 <= k < skb.Length ==>
                  skb[k] == if at <= k < at + i then Xor(old(skb[k]), delta[k - at]) else old(skb[k])
    {
      skb[at + i] := Xor(skb[at + i], delta[i]);
    }
  }

  // ghash_block_delta, on unsigned 64-bit arithmetic: d is the position's distance into the patch,
  // with its top bit set when it lies before it.
  const TOP64 := 0x8000_0000_0000_0000

  // The delta of block b, byte by byte.
  function BlockDelta(p: Patch, b: nat): (d: seq<bv8>)
    requires StagedOrSkipped(p)
    ensures |d| == 16
  {
    seq(16, j requires 0 <= j < 16 => PatchByte(p, 16 * b + j))
  }

  method GhashBlockDelta(delta: seq<bv8>, block: nat, secOff: nat, len: nat) returns (out: seq<bv8>)
    requires |delta| == SECRET_MAX_LEN && len <= SECRET_MAX_LEN && secOff < TWO32
    ensures |out| == 16 && out == BlockDelta(Patch(secOff, len, delta), block % 0x400)
  {
    var start := (block % 0x400 * 16 - secOff) % TWO64;
    var o := new bv8[16];
    for i := 0 to 16
      invariant forall k :: 0 <= k < i ==> o[k] == PatchByte(Patch(secOff, len, delta), 16 * (block % 0x400) + k)
    {
      var d := (start + i) % TWO64;
      WrapSum(block % 0x400 * 16 - secOff, i);
      // The top bit of ~d & (d - len).
      var within := d < TOP64 && (d - len) % TWO64 >= TOP64;
      DistanceInto(block % 0x400 * 16 + i - secOff, d, len);
      o[i] := if within then delta[d % SECRET_MAX_LEN] else 0;
    }
    out := o[..];
  }

  lemma WrapSum(a: int, i: nat)
    ensures (a % TWO64 + i) % TWO64 == (a + i) % TWO64
  {
  }

  // The sign-bit test says whether the position is in the patch.
  lemma DistanceInto(x: int, d: nat, len: nat)
    requires -TOP64 < x < 0x10_0000 && d == x % TWO64 && len <= SECRET_MAX_LEN
    ensures (d < TOP64 && (d - len) % TWO64 >= TOP64) <==> 0 <= x < len
    ensures 0 <= x ==> d == x
  {
    if x >= 0 {
      assert d == x;
      if d < len {
        assert (d - len) % TWO64 == d - len + TWO64;
      } else {
        assert (d - len) % TWO64 == d - len;
      }
    } else {
      assert d == x + TWO64;
    }
  }

  // The first b of the changed blocks.
  function Upto(ds: seq<Elem>, b: nat): (r: seq<Elem>)
    requires b <= |ds|
    ensures |r| == |ds|
  {
    ds[..b] + Zeros(|ds| - b)
  }

  lemma UptoNext(h: Elem, ds: seq<Elem>, b: nat)
    requires b < |ds|
    ensures Ghash(h, Upto(ds, b + 1)) == Add(Ghash(h, Upto(ds, b)), Mul(ds[b], Pow(h, |ds| - b)))
  {
    hide Mul, Add, Ghash;
    var s := Single(|ds|, b, ds[b]);
    forall i | 0 <= i < |ds| ensures AddAll(Upto(ds, b), s)[i] == Upto(ds, b + 1)[i] {
      AddZero(Upto(ds, b)[i]);
      AddZero(s[i]);
    }
    assert AddAll(Upto(ds, b), s) == Upto(ds, b + 1);
    GhashAdd(h, Upto(ds, b), s);
    GhashSingle(h, |ds|, b, ds[b]);
  }

  // Block b of what the program sees of a patch that reaches it. Its block offset has ten bits: a block from 2^14 on is
  // taken for one of the first, where the patch has no bytes.
  lemma SeenInputAt(p: Patch, ctLen: nat, b: nat)
    requires StagedOrSkipped(p) && p.len > 0 && p.off / 16 <= b <= (p.off + p.len - 1) / 16 && b < BlockCount(ctLen)
    ensures SeenInput([p], ctLen)[b] == ToElem(BlockDelta(p, b % 0x400))
  {
    hide ToElem, Xor;
    OnePatch(p);
    assert PaddedBlock(SeenDelta([p], ctLen), b) == BlockDelta(p, b % 0x400);
  }

  lemma OnePatch(p: Patch)
    requires StagedOrSkipped(p)
    ensures forall k :: ByteDelta([p], k) == PatchByte(p, k)
  {
    hide Xor;
    var one := [p];
    forall k ensures ByteDelta(one, k) == PatchByte(p, k) {
      assert one[..|one| - 1] == [];
      XorZeroByte(PatchByte(p, k));
    }
  }

  // Outside the patch the blocks do not change.
  lemma SeenInputOutside(p: Patch, ctLen: nat, b: nat)
    requires StagedOrSkipped(p) && b <= BlockCount(ctLen)
    requires p.len == 0 || b < p.off / 16 || b > (p.off + p.len - 1) / 16
    ensures SeenInput([p], ctLen)[b] == Zero()
  {
    hide ToElem, Xor, ByteDelta;
    if b < BlockCount(ctLen) {
      OnePatch(p);
      ToElemZero(PaddedBlock(SeenDelta([p], ctLen), b));
    }
  }

  lemma SeenInputUpto(p: Patch, ctLen: nat, b: nat)
    requires StagedOrSkipped(p) && b <= BlockCount(ctLen)
    ensures p.len == 0 || b <= p.off / 16 ==> Upto(SeenInput([p], ctLen), b) == Zeros(BlockCount(ctLen) + 1)
    ensures p.len == 0 || b > (p.off + p.len - 1) / 16 || b == BlockCount(ctLen) ==>
              Upto(SeenInput([p], ctLen), b) == SeenInput([p], ctLen)
  {
    hide SeenDelta, Blocks;
    var ds := SeenInput([p], ctLen);
    forall i | 0 <= i < |ds| && (p.len == 0 || i < p.off / 16 || i > (p.off + p.len - 1) / 16)
      ensures ds[i] == Zero()
    {
      SeenInputOutside(p, ctLen, i);
    }
  }

  function Least(a: nat, b: nat): (r: nat) {
    if a < b then a else b
  }

  // ghash_patch_iter: the blocks of the ciphertext the patch touches, each times the power of H for its place.
  method GhashPatchIter(p: Patch, ctLen: nat, table: seq<seq<bv8>>, ghost h: Elem, tagDelta: seq<bv8>)
    returns (out: seq<bv8>)
    requires StagedOrSkipped(p) && ctLen <= MAX_RECORD_LEN
    requires IsPowerTable(table, h) && |tagDelta| == 16
    ensures |out| == 16 && ToElem(out) == Add(ToElem(tagDelta), Ghash(h, SeenInput([p], ctLen)))
  {
    hide Mul, Add, ToElem, Pow, Ghash, Xor, SeenDelta, Blocks, ByteDelta, BlockDelta, XorBytes, SeenInput, Upto, Zeros, IsPowerTable;
    ghost var ds := SeenInput([p], ctLen);
    out := tagDelta;
    AddZero(ToElem(tagDelta));
    GhashZeros(h, |ds|);
    SeenInputUpto(p, ctLen, 0);
    if p.len == 0 {
      return;
    }
    var n := ClampWriteLen(p.len);
    var first := p.off / 16;
    var count := (p.off + n - 1) / 16 - first + 1;
    if count > 9 {
      count := 9;
    }
    var ctBlocks := BlockCount(ctLen);
    SeenInputUpto(p, ctLen, Least(first, ctBlocks));
    var idx := 0;
    while idx < count && first + idx < ctBlocks
      invariant 0 <= idx <= count && (idx > 0 ==> first + idx <= ctBlocks) && |out| == 16
      invariant ToElem(out) == Add(ToElem(tagDelta), Ghash(h, Upto(ds, Least(first + idx, ctBlocks))))
    {
      var b := first + idx;
      var blockDelta := GhashBlockDelta(p.delta, b, p.off, n);
      var hPow := GF128HPowerTable(table, ctBlocks - b + 1, h);
      var contrib := GF128MulMasked(blockDelta, hPow);
      SeenInputAt(p, ctLen, b);
      UptoNext(h, ds, b);
      AddAssoc(ToElem(tagDelta), Ghash(h, Upto(ds, b)), ToElem(contrib));
      ToElemXor(out, contrib);
      out := XorBytes(out, contrib);
      idx := idx + 1;
    }
    SeenInputUpto(p, ctLen, Least(first + idx, ctBlocks));
  }

  lemma SeenInputAppend(h: Elem, ps: seq<Patch>, p: Patch, ctLen: nat)
    requires AllStaged(ps) && StagedOrSkipped(p)
    ensures AllStaged(ps + [p])
    ensures Ghash(h, SeenInput(ps + [p], ctLen)) == Add(Ghash(h, SeenInput(ps, ctLen)), Ghash(h, SeenInput([p], ctLen)))
  {
    hide ToElem, Add, Xor, Ghash;
    var one, all := [p], ps + [p];
    OnePatch(p);
    forall k ensures ByteDelta(all, k) == Xor(ByteDelta(ps, k), ByteDelta(one, k)) {
      assert all[..|all| - 1] == ps;
    }
    hide ByteDelta;
    XorZeroByte(0);
    var d, e := SeenDelta(ps, ctLen), SeenDelta(one, ctLen);
    assert SeenDelta(all, ctLen) == XorBytes(d, e);
    BlocksXor(d, e);
    AddZero(Zero());
    assert SeenInput(all, ctLen) == AddAll(SeenInput(ps, ctLen), SeenInput(one, ctLen));
    GhashAdd(h, SeenInput(ps, ctLen), SeenInput(one, ctLen));
  }

  // The tag delta of all patches, in staging order; overlapping patches just add up.
  method GhashTagDelta(patches: seq<Patch>, ctLen: nat, h: seq<bv8>) returns (tagDelta: seq<bv8>)
    requires AllStaged(patches) && |h| == 16 && ctLen <= MAX_RECORD_LEN
    ensures |tagDelta| == 16 && ToElem(tagDelta) == Ghash(ToElem(h), SeenInput(patches, ctLen))
  {
    hide Mul, Add, ToElem, Pow, Ghash, Xor, SeenDelta, ByteDelta, SeenInput, IsPowerTable;
    var table := ComputeHPowerTable(h);
    tagDelta := ZERO_BLOCK;
    ToElemZero(tagDelta);
    NoPatches(ToElem(h), ctLen);
    for i := 0 to |patches|
      invariant |tagDelta| == 16
      invariant ToElem(tagDelta) == Ghash(ToElem(h), SeenInput(patches[..i], ctLen))
    {
      SeenInputAppend(ToElem(h), patches[..i], patches[i], ctLen);
      assert patches[..i] + [patches[i]] == patches[..i + 1];
      tagDelta := GhashPatchIter(patches[i], ctLen, table, ToElem(h), tagDelta);
    }
    assert patches[..|patches|] == patches;
  }

  lemma NoPatches(h: Elem, ctLen: nat)
    ensures Ghash(h, SeenInput([], ctLen)) == Zero()
  {
    hide Ghash;
    forall i | 0 <= i < BlockCount(ctLen) ensures Blocks(SeenDelta([], ctLen))[i] == Zero() {
      ToElemZero(PaddedBlock(SeenDelta([], ctLen), i));
    }
    assert SeenInput([], ctLen) == Zeros(BlockCount(ctLen) + 1);
    GhashZeros(h, BlockCount(ctLen) + 1);
  }

  // ---- A whole record ----

  // What the tc programs did to a segment: left it alone, or patched it, with the tag repaired in
  // place or, when a later segment holds it, its delta kept for that segment.
  datatype Outcome = Untouched | TagPatched | TagDeferred(tagDelta: seq<bv8>)

  // The record in the TCP stream: this segment's bytes and those of the segments behind it.
  datatype Record = Record(at: nat, ctLen: nat, rest: seq<bv8>)

  ghost predicate Holds(segment: seq<bv8>, r: Record) {
    |segment| + |r.rest| >= r.at + r.ctLen + TAG_LEN
  }

  ghost function Ciphertext(segment: seq<bv8>, r: Record): (c: seq<bv8>)
    requires Holds(segment, r)
    ensures |c| == r.ctLen
  {
    (segment + r.rest)[r.at..r.at + r.ctLen]
  }

  ghost function Tag(segment: seq<bv8>, r: Record): (t: seq<bv8>)
    requires Holds(segment, r)
    ensures |t| == TAG_LEN
  {
    (segment + r.rest)[r.at + r.ctLen..r.at + r.ctLen + TAG_LEN]
  }

  predicate InSegment(ps: seq<Patch>, at: nat, segment: nat) {
    forall i :: 0 <= i < |ps| ==> ps[i].len == 0 || at + ps[i].off + ps[i].len <= segment
  }

  // Only bytes of the segment are patched, so patching the segment patches the record, ciphertext and tag.
  lemma SegmentPatched(before: seq<bv8>, after: seq<bv8>, r: Record, ps: seq<Patch>)
    requires AllStaged(ps) && Holds(before, r) && InSegment(ps, r.at, |before|) && after == NewBytes(before, r.at, ps)
    ensures Ciphertext(after, r) == XorBytes(Ciphertext(before, r), BytesDelta(ps, r.ctLen))
    ensures Tag(after, r) == XorBytes(Tag(before, r), OverTag(ps, r.ctLen))
  {
    hide Xor, ByteDelta, NewBytes, InSegment;
    var old_, new_ := before + r.rest, after + r.rest;
    forall k | 0 <= k < r.ctLen + TAG_LEN ensures new_[r.at + k] == Xor(old_[r.at + k], ByteDelta(ps, k)) {
      PatchedAt(before, after, r, ps, k);
    }
    PatchedSlice(old_, new_, r, ps);
  }

  lemma PatchedAt(before: seq<bv8>, after: seq<bv8>, r: Record, ps: seq<Patch>, k: nat)
    requires AllStaged(ps) && Holds(before, r) && InSegment(ps, r.at, |before|) && after == NewBytes(before, r.at, ps)
    requires k < r.ctLen + TAG_LEN
    ensures (after + r.rest)[r.at + k] == Xor((before + r.rest)[r.at + k], ByteDelta(ps, k))
  {
    hide Xor, ByteDelta;
    if r.at + k < |before| {
      assert r.at + k - r.at == k;
    } else {
      ByteDeltaNone(ps, k);
      XorZeroByte(r.rest[r.at + k - |before|]);
    }
  }

  lemma PatchedSlice(old_: seq<bv8>, new_: seq<bv8>, r: Record, ps: seq<Patch>)
    requires AllStaged(ps) && |old_| == |new_| >= r.at + r.ctLen + TAG_LEN
    requires forall k :: 0 <= k < r.ctLen + TAG_LEN ==> new_[r.at + k] == Xor(old_[r.at + k], ByteDelta(ps, k))
    ensures new_[r.at..r.at + r.ctLen] == XorBytes(old_[r.at..r.at + r.ctLen], BytesDelta(ps, r.ctLen))
    ensures new_[r.at + r.ctLen..r.at + r.ctLen + TAG_LEN] == XorBytes(old_[r.at + r.ctLen..r.at + r.ctLen + TAG_LEN], OverTag(ps, r.ctLen))
  {
    hide Xor, ByteDelta;
    var was, now := old_[r.at + r.ctLen..r.at + r.ctLen + TAG_LEN], new_[r.at + r.ctLen..r.at + r.ctLen + TAG_LEN];
    forall j | 0 <= j < TAG_LEN ensures now[j] == XorBytes(was, OverTag(ps, r.ctLen))[j] {
      assert new_[r.at + (r.ctLen + j)] == Xor(old_[r.at + (r.ctLen + j)], ByteDelta(ps, r.ctLen + j));
    }
  }

  // Bytes no patch covers stay.
  lemma NewBytesOutside(before: seq<bv8>, at: nat, ps: seq<Patch>, k: nat)
    requires AllStaged(ps) && k < |before|
    requires forall i :: 0 <= i < |ps| ==> !Covers(ps[i], k - at)
    ensures NewBytes(before, at, ps)[k] == before[k]
  {
    hide Xor, ByteDelta;
    ByteDeltaNone(ps, k - at);
    XorZeroByte(before[k]);
  }

  // The record's tag in the end: deferred, it is repaired on the later segment that holds it whole.
  ghost function FinalTag(segment: seq<bv8>, r: Record, outcome: Outcome): (t: seq<bv8>)
    requires Holds(segment, r) && (outcome.TagDeferred? ==> |outcome.tagDelta| == TAG_LEN)
    ensures |t| == TAG_LEN
  {
    if outcome.TagDeferred? then XorBytes(Tag(segment, r), outcome.tagDelta) else Tag(segment, r)
  }

  predicate SameOutside(before: seq<bv8>, after: seq<bv8>, r: Record) {
    |after| == |before| && forall k :: 0 <= k < |before| && (k < r.at || k >= r.at + r.ctLen + TAG_LEN) ==> after[k] == before[k]
  }

  // The record survives: nothing of the segment outside its ciphertext and tag changed, and it verifies.
  ghost predicate Survives(before: seq<bv8>, after: seq<bv8>, r: Record, outcome: Outcome, auth: Auth)
    requires Holds(after, r) && (outcome.TagDeferred? ==> |outcome.tagDelta| == TAG_LEN)
  {
    SameOutside(before, after, r) && ToElem(FinalTag(after, r, outcome)) == GcmTag(auth, Ciphertext(after, r))
  }

  // tc_egress_patch and tc_ghash_update on the record at payloadOff, in a segment of any length: the applied patches
  // are XORed into its ciphertext, and the record survives if and only if they fit it. Patches that lie inside the
  // ciphertext and the first 2^14 bytes always do.
  method TcPatchRecord(skb: array<bv8>, payloadOff: nat, recordLen: nat, nonceLen: nat, staged: seq<Patch>,
                       h: seq<bv8>, ghost auth: Auth, ghost r: Record)
    returns (outcome: Outcome, ghost settled: seq<Patch>)
    requires |h| == 16 && ToElem(h) == auth.h
    requires forall i :: 0 <= i < |staged| ==> Staged(staged[i])
    requires recordLen <= MAX_RECORD_LEN
    requires recordLen >= TAG_LEN + nonceLen ==>
               && r.at == payloadOff + HDR_LEN + nonceLen && r.ctLen == recordLen - TAG_LEN - nonceLen
               && Holds(skb[..], r) && ToElem(Tag(skb[..], r)) == GcmTag(auth, Ciphertext(skb[..], r))
    modifies skb
    ensures settled == SettledAll(staged, recordLen, nonceLen, payloadOff + HDR_LEN + nonceLen, skb.Length)
    ensures AllStaged(settled)
    ensures outcome.Untouched? ==> skb[..] == old(skb[..])
    ensures recordLen < TAG_LEN + nonceLen ==> outcome.Untouched?
    ensures recordLen >= TAG_LEN + nonceLen ==>
              && (outcome.Untouched? <==> forall i :: 0 <= i < |settled| ==> settled[i].len == 0)
              && (!outcome.Untouched? ==> (outcome.TagPatched? <==> r.at + r.ctLen + TAG_LEN <= skb.Length))
    ensures outcome.TagDeferred? ==> |outcome.tagDelta| == TAG_LEN
    ensures recordLen >= TAG_LEN + nonceLen ==>
              && Ciphertext(skb[..], r) == XorBytes(old(Ciphertext(skb[..], r)), BytesDelta(settled, r.ctLen))
              && PatchedOutside(old(skb[..]), skb[..], r, settled)
              && (Survives(old(skb[..]), skb[..], r, outcome, auth) <==> Fits(settled, r.ctLen, auth.h))
              && (AllInside(settled, r.ctLen) ==> Survives(old(skb[..]), skb[..], r, outcome, auth))
  {
    hide Xor, ByteDelta, BytesDelta, ToElem, GcmTag, SeenInput, Ghash, Add, OverTag, Fits, Survives, NewBytes, Ciphertext, Tag, FinalTag;
    ghost var before := skb[..];
    settled := SettledAll(staged, recordLen, nonceLen, payloadOff + HDR_LEN + nonceLen, skb.Length);
    if recordLen < TAG_LEN + nonceLen {
      return Untouched, settled;
    }
    var ctLen := recordLen - TAG_LEN - nonceLen;
    var tagOff := payloadOff + HDR_LEN + nonceLen + ctLen;
    assert InSegment(settled, r.at, |before|);
    var patches, applied := TcEgressPatch(skb, payloadOff, recordLen, nonceLen, staged);
    ghost var patched := skb[..];
    SegmentPatched(before, patched, r, settled);
    if AllInside(settled, r.ctLen) {
      InsideFits(settled, r.ctLen, auth.h);
    }
    if applied == 0 {
      NothingApplied(before, r, settled, auth);
      return Untouched, settled;
    }
    var tagDelta := GhashTagDelta(patches, ctLen, h);
    if tagOff + TAG_LEN <= skb.Length {
      XorAt(skb, tagOff, TAG_LEN, tagDelta);
      TagBytes(patched, skb[..], r, tagDelta);
      outcome := TagPatched;
    } else {
      outcome := TagDeferred(tagDelta);
    }
    FinalTagIs(patched, skb[..], r, outcome, tagDelta);
    SurvivesExactly(before, skb[..], r, outcome, tagDelta, settled, auth);
  }

  // The final tag is the patched segment's, XOR the tag delta, in either case.
  lemma FinalTagIs(patched: seq<bv8>, after: seq<bv8>, r: Record, outcome: Outcome, tagDelta: seq<bv8>)
    requires Holds(after, r) && |patched| == |after| && |tagDelta| == TAG_LEN
    requires outcome.TagPatched? ==> Tag(after, r) == XorBytes(Tag(patched, r), tagDelta)
    requires !outcome.TagPatched? ==> outcome == TagDeferred(tagDelta) && after == patched
    ensures FinalTag(after, r, outcome) == XorBytes(Tag(patched, r), tagDelta)
  {
  }

  lemma NothingApplied(before: seq<bv8>, r: Record, ps: seq<Patch>, auth: Auth)
    requires AllStaged(ps) && Holds(before, r) && ToElem(Tag(before, r)) == GcmTag(auth, Ciphertext(before, r))
    requires forall i :: 0 <= i < |ps| ==> ps[i].len == 0
    ensures NewBytes(before, r.at, ps) == before
    ensures Survives(before, before, r, Untouched, auth) && Fits(ps, r.ctLen, auth.h)
  {
    hide ByteDelta, GcmTag, ToElem, Fits;
    forall k | 0 <= k < |before| ensures NewBytes(before, r.at, ps)[k] == before[k] {
      NewBytesOutside(before, r.at, ps, k);
    }
    InsideFits(ps, r.ctLen, auth.h);
  }

  // The tag comes out right if and only if the patches fit.
  lemma SurvivesExactly(before: seq<bv8>, after: seq<bv8>, r: Record, outcome: Outcome, tagDelta: seq<bv8>, ps: seq<Patch>, auth: Auth)
    requires AllStaged(ps) && |after| == |before| && Holds(before, r) && InSegment(ps, r.at, |before|)
    requires ToElem(Tag(before, r)) == GcmTag(auth, Ciphertext(before, r))
    requires |tagDelta| == TAG_LEN && ToElem(tagDelta) == Ghash(auth.h, SeenInput(ps, r.ctLen))
    requires Ciphertext(after, r) == XorBytes(Ciphertext(before, r), BytesDelta(ps, r.ctLen))
    requires PatchedOutside(before, after, r, ps)
    requires outcome.TagDeferred? ==> |outcome.tagDelta| == TAG_LEN
    requires FinalTag(after, r, outcome) == XorBytes(XorBytes(Tag(before, r), OverTag(ps, r.ctLen)), tagDelta)
    ensures Survives(before, after, r, outcome, auth) <==> Fits(ps, r.ctLen, auth.h)
  {
    OutsideExactly(before, after, r, ps);
    hide Xor, ByteDelta, BytesDelta, ToElem, GcmTag, SeenInput, DeltaInput, StrayInput, Ghash, Add, OverTag, Ciphertext, Tag, FinalTag, XorBytes;
    hide PatchedOutside, SameOutside, NothingFrom, InSegment;
    var t, o, c := Tag(before, r), OverTag(ps, r.ctLen), Ciphertext(before, r);
    var d, e := Ghash(auth.h, DeltaInput(ps, r.ctLen)), Ghash(auth.h, StrayInput(ps, r.ctLen));
    ToElemXor(XorBytes(t, o), tagDelta);
    ToElemXor(t, o);
    SeenIsDeltaAndStray(auth.h, ps, r.ctLen);
    assert ToElem(FinalTag(after, r, outcome)) == Add(Add(ToElem(t), ToElem(o)), Add(d, e));
    TagRepaired(auth, c, ps);
    assert GcmTag(auth, Ciphertext(after, r)) == Add(ToElem(t), d);
    AddBalance(ToElem(t), ToElem(o), d, e);
  }

  lemma AddBalance(t: Elem, o: Elem, d: Elem, e: Elem)
    ensures Add(Add(t, o), Add(d, e)) == Add(t, d) <==> o == e
  {
    AddSwap(t, o, d, e);
    var s := Add(t, d);
    AddZero(s);
    AddZero(o);
    AddZero(e);
    if Add(s, Add(o, e)) == s {
      calc {
        o;
        Add(o, Zero());
        Add(o, Add(e, e));
        { AddAssoc(o, e, e); }
        Add(Add(o, e), e);
        { AddCancel(s, Add(o, e)); }
        Add(Zero(), e);
        e;
      }
    }
  }

  lemma AddCancel(s: Elem, x: Elem)
    requires Add(s, x) == s
    ensures x == Zero()
  {
    AddAssoc(s, s, x);
    AddZero(s);
    AddZero(x);
  }

  predicate PatchedOutside(before: seq<bv8>, after: seq<bv8>, r: Record, ps: seq<Patch>)
    requires AllStaged(ps)
  {
    && |after| == |before|
    && forall k :: 0 <= k < |before| && (k < r.at || k >= r.at + r.ctLen + TAG_LEN) ==> after[k] == NewBytes(before, r.at, ps)[k]
  }

  // The segment outside ciphertext and tag is the same if and only if the patches do nothing there.
  lemma OutsideExactly(before: seq<bv8>, after: seq<bv8>, r: Record, ps: seq<Patch>)
    requires AllStaged(ps) && InSegment(ps, r.at, |before|) && PatchedOutside(before, after, r, ps)
    ensures SameOutside(before, after, r) <==> NothingFrom(ps, r.ctLen + TAG_LEN)
  {
    assert |after| == |before|;
    hide PatchedOutside, ByteDelta, InSegment;
    if SameOutside(before, after, r) {
      forall k | k >= r.ctLen + TAG_LEN ensures ByteDelta(ps, k) == 0 {
        OutsideAt(before, after, r, ps, r.at + k);
      }
    }
    if NothingFrom(ps, r.ctLen + TAG_LEN) {
      forall k | 0 <= k < |before| && (k < r.at || k >= r.at + r.ctLen + TAG_LEN) ensures after[k] == before[k] {
        OutsideAt(before, after, r, ps, k);
      }
    }
  }

  lemma OutsideAt(before: seq<bv8>, after: seq<bv8>, r: Record, ps: seq<Patch>, k: nat)
    requires AllStaged(ps) && InSegment(ps, r.at, |before|) && PatchedOutside(before, after, r, ps)
    requires k < r.at || k >= r.at + r.ctLen + TAG_LEN
    ensures |after| == |before|
    ensures k >= |before| || k < r.at ==> ByteDelta(ps, k - r.at) == 0
    ensures k < |before| ==> (after[k] == before[k] <==> ByteDelta(ps, k - r.at) == 0)
  {
    hide Xor, ByteDelta;
    if k >= |before| || k < r.at {
      ByteDeltaNone(ps, k - r.at);
    }
    if k < |before| {
      XorNeutral(before[k], ByteDelta(ps, k - r.at));
    }
  }

  lemma XorNeutral(a: bv8, y: bv8)
    ensures Xor(a, y) == a <==> y == 0
  {
  }

  lemma TagBytes(patched: seq<bv8>, after: seq<bv8>, r: Record, tagDelta: seq<bv8>)
    requires |patched| == |after| && Holds(patched, r) && |tagDelta| == 16
    requires r.at + r.ctLen + TAG_LEN <= |patched|
    requires forall k :: 0 <= k < |patched| ==>
               after[k] == if r.at + r.ctLen <= k < r.at + r.ctLen + TAG_LEN
                           then Xor(patched[k], tagDelta[k - (r.at + r.ctLen)]) else patched[k]
    ensures Ciphertext(after, r) == Ciphertext(patched, r)
    ensures Tag(after, r) == XorBytes(Tag(patched, r), tagDelta)
  {
    hide Xor;
    var t := Tag(after, r);
    forall j | 0 <= j < TAG_LEN ensures t[j] == XorBytes(Tag(patched, r), tagDelta)[j] {
      assert t[j] == after[r.at + r.ctLen + j] && Tag(patched, r)[j] == patched[r.at + r.ctLen + j];
    }
    assert Ciphertext(after, r) == Ciphertext(patched, r);
  }
}
