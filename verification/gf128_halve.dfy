module GF128Halve {
  import opened GF128
  import opened GF128Bytes

  // Byte i of a 64-bit word, the most significant first.
  function WordByte(w: bv64, i: nat): (r: bv8)
    requires i < 8
  {
    match i
    case 0 => ((w >> 56) & 0xff) as bv8
    case 1 => ((w >> 48) & 0xff) as bv8
    case 2 => ((w >> 40) & 0xff) as bv8
    case 3 => ((w >> 32) & 0xff) as bv8
    case 4 => ((w >> 24) & 0xff) as bv8
    case 5 => ((w >> 16) & 0xff) as bv8
    case 6 => ((w >> 8) & 0xff) as bv8
    case 7 => (w & 0xff) as bv8
  }

  // The 16-byte block of a 128-bit value given as its high and low words.
  function WordsToBlock(hi: bv64, lo: bv64): (b: seq<bv8>)
    ensures |b| == 16
  {
    seq(16, i requires 0 <= i < 16 => if i < 8 then WordByte(hi, i) else WordByte(lo, i - 8))
  }

  // A 128-bit value one bit up and one bit down, as words; down takes the new top bit as given.
  function UpHi(hi: bv64, lo: bv64): (r: bv64) {
    (hi << 1) | (lo >> 63)
  }

  function UpLo(lo: bv64): (r: bv64) {
    lo << 1
  }

  function DownHi(hi: bv64, top: bv64): (r: bv64) {
    (hi >> 1) | (top << 63)
  }

  function DownLo(hi: bv64, lo: bv64): (r: bv64) {
    (lo >> 1) | (hi << 63)
  }

  function FoldHi(hi: bv64, reduced: bv64): (r: bv64) {
    if reduced == 1 then hi ^ 0xC200_0000_0000_0000 else hi
  }

  function FoldLo(lo: bv64, reduced: bv64): (r: bv64) {
    if reduced == 1 then lo ^ 1 else lo
  }

  // What key setup stores: the subkey doubled, with the polynomial folded in for the bit lost.
  function DoubledHi(hi: bv64, lo: bv64): (r: bv64) {
    FoldHi(UpHi(hi, lo), hi >> 63)
  }

  function DoubledLo(hi: bv64, lo: bv64): (r: bv64) {
    FoldLo(UpLo(lo), hi >> 63)
  }

  function HalvedHi(lo: bv64, hi: bv64): (r: bv64) {
    DownHi(FoldHi(hi, lo & 1), lo & 1)
  }

  function HalvedLo(lo: bv64, hi: bv64): (r: bv64) {
    DownLo(FoldHi(hi, lo & 1), FoldLo(lo, lo & 1))
  }

  lemma FoldTwice(hi: bv64, lo: bv64, r: bv64)
    ensures FoldHi(FoldHi(hi, r), r) == hi && FoldLo(FoldLo(lo, r), r) == lo
  {
  }

  lemma RejoinHigh(hi: bv64, lo: bv64)
    ensures (((hi << 1) | (lo >> 63)) >> 1) | ((hi >> 63) << 63) == hi
  {
    assert ((hi << 1) | (lo >> 63)) >> 1 == (hi << 1) >> 1;
  }

  lemma RejoinLow(hi: bv64, lo: bv64)
    ensures ((lo << 1) >> 1) | (((hi << 1) | (lo >> 63)) << 63) == lo
  {
    assert ((hi << 1) | (lo >> 63)) << 63 == (lo >> 63) << 63;
  }

  lemma DownUp(hi: bv64, lo: bv64)
    ensures DownHi(UpHi(hi, lo), hi >> 63) == hi
    ensures DownLo(UpHi(hi, lo), UpLo(lo)) == lo
  {
    RejoinHigh(hi, lo);
    RejoinLow(hi, lo);
  }

  // The low bit of the stored value tells whether the polynomial was folded in.
  lemma ReductionIndicator(hi: bv64, lo: bv64)
    ensures DoubledLo(hi, lo) & 1 == hi >> 63
  {
  }

  // Halving undoes doubling, for every subkey.
  lemma HalveUndoesDouble(hi: bv64, lo: bv64)
    ensures HalvedHi(DoubledLo(hi, lo), DoubledHi(hi, lo)) == hi
    ensures HalvedLo(DoubledLo(hi, lo), DoubledHi(hi, lo)) == lo
  {
    hide UpHi, UpLo, DownHi, DownLo, FoldHi, FoldLo;
    ReductionIndicator(hi, lo);
    FoldTwice(UpHi(hi, lo), UpLo(lo), hi >> 63);
    DownUp(hi, lo);
  }

  // Away from the top byte, a word shifted right by a bit is its bytes shifted so.
  lemma ShiftedByte(w: bv64, top: bv64, i: nat)
    requires 0 < i < 8 && top & 0x00ff_ffff_ffff_ffff == 0
    ensures WordByte((w >> 1) ^ top, i) == ShiftIn(WordByte(w, i - 1), WordByte(w, i))
  {
    assert ((w >> 1) ^ top) & 0x00ff_ffff_ffff_ffff == (w >> 1) & 0x00ff_ffff_ffff_ffff;
    var x := (w >> 1) ^ top;
    match i
    case 1 => assert (x >> 48) & 0xff == ((w >> 1) >> 48) & 0xff;
    case 2 => assert (x >> 40) & 0xff == ((w >> 1) >> 40) & 0xff;
    case 3 => assert (x >> 32) & 0xff == ((w >> 1) >> 32) & 0xff;
    case 4 => assert (x >> 24) & 0xff == ((w >> 1) >> 24) & 0xff;
    case 5 => assert (x >> 16) & 0xff == ((w >> 1) >> 16) & 0xff;
    case 6 => assert (x >> 8) & 0xff == ((w >> 1) >> 8) & 0xff;
    case 7 => assert (x >> 0) & 0xff == ((w >> 1) >> 0) & 0xff;
  }

  lemma ReducedHigh(hi: bv64)
    ensures ((hi ^ 0xC200_0000_0000_0000) >> 1) | 0x8000_0000_0000_0000 == (hi >> 1) ^ 0xE100_0000_0000_0000
  {
  }

  lemma CarriedBit(hi: bv64, lo: bv64)
    ensures (lo >> 1) | (hi << 63) == (lo >> 1) ^ ((hi & 1) << 63)
  {
  }

  lemma ReducedLow(hi: bv64, lo: bv64)
    ensures (lo ^ 1) >> 1 == lo >> 1 && (hi ^ 0xC200_0000_0000_0000) << 63 == hi << 63
  {
  }

  lemma ReductionBit(lo: bv64)
    ensures (lo & 1) << 63 == if lo & 1 == 1 then 0x8000_0000_0000_0000 else 0
  {
  }

  lemma NoReduction(x: bv64)
    ensures x | 0 == x && x ^ 0 == x
  {
  }

  lemma HalvedWords(hi: bv64, lo: bv64)
    ensures HalvedHi(lo, hi) == (hi >> 1) ^ (if lo & 1 == 1 then 0xE100_0000_0000_0000 else 0)
    ensures HalvedLo(lo, hi) == (lo >> 1) ^ ((hi & 1) << 63)
  {
    ReductionBit(lo);
    CarriedBit(hi, lo);
    if lo & 1 == 1 {
      ReducedHigh(hi);
      ReducedLow(hi, lo);
    } else {
      NoReduction(hi >> 1);
    }
  }

  lemma HalvedBytes(hi: bv64, lo: bv64, i: nat)
    requires 0 < i < 8
    ensures WordByte(HalvedHi(lo, hi), i) == ShiftIn(WordByte(hi, i - 1), WordByte(hi, i))
    ensures WordByte(HalvedLo(lo, hi), i) == ShiftIn(WordByte(lo, i - 1), WordByte(lo, i))
  {
    hide WordByte, ShiftIn, HalvedHi, HalvedLo;
    HalvedWords(hi, lo);
    OnlyTopBit(hi);
    ShiftedByte(hi, if lo & 1 == 1 then 0xE100_0000_0000_0000 else 0, i);
    ShiftedByte(lo, (hi & 1) << 63, i);
  }

  lemma OnlyTopBit(hi: bv64)
    ensures ((hi & 1) << 63) & 0x00ff_ffff_ffff_ffff == 0
    ensures 0xE100_0000_0000_0000 & 0x00ff_ffff_ffff_ffff == 0 as bv64
  {
  }

  lemma HalvedEdges(hi: bv64, lo: bv64)
    ensures WordByte(HalvedLo(lo, hi), 0) == ShiftIn(WordByte(hi, 7), WordByte(lo, 0))
    ensures WordByte(HalvedHi(lo, hi), 0) ==
            if WordByte(lo, 7) & 1 != 0 then (WordByte(hi, 0) >> 1) ^ 0xe1 else WordByte(hi, 0) >> 1
  {
  }

  // Halving is multiplication by x.
  lemma HalveIsMulX(hi: bv64, lo: bv64)
    ensures ToElem(WordsToBlock(HalvedHi(lo, hi), HalvedLo(lo, hi))) == MulX(ToElem(WordsToBlock(hi, lo)))
  {
    hide WordByte, HalvedHi, HalvedLo, ShiftIn, ToElem, MulX;
    var v, w := WordsToBlock(HalvedHi(lo, hi), HalvedLo(lo, hi)), WordsToBlock(hi, lo);
    forall j | 1 <= j < 16 ensures v[j] == ShiftIn(w[j - 1], w[j]) {
      if j == 8 {
        HalvedEdges(hi, lo);
      } else {
        HalvedBytes(hi, lo, j % 8);
      }
    }
    HalvedEdges(hi, lo);
    ShiftIsMulX(v, w);
  }

  // gf128_halve_to_h: fold the polynomial back out when the low bit says so, and shift down.
  method GF128HalveToH(lo: bv64, hi: bv64) returns (out: seq<bv8>)
    ensures |out| == 16 && ToElem(out) == MulX(ToElem(WordsToBlock(hi, lo)))
    ensures forall h, l :: hi == DoubledHi(h, l) && lo == DoubledLo(h, l) ==> out == WordsToBlock(h, l)
  {
    hide WordByte, WordsToBlock, UpHi, UpLo, DownHi, DownLo, FoldHi, FoldLo, DoubledHi, DoubledLo, ToElem, MulX;
    var reduced := lo & 1;
    var h, l := FoldHi(hi, reduced), FoldLo(lo, reduced);
    l := DownLo(h, l);
    h := DownHi(h, reduced);
    HalveIsMulX(hi, lo);
    out := WordsToBlock(h, l);
    forall h0, l0 | hi == DoubledHi(h0, l0) && lo == DoubledLo(h0, l0) ensures out == WordsToBlock(h0, l0) {
      HalveUndoesDouble(h0, l0);
    }
  }
}
