/** Shadow values: when a value has one, how one is minted, and the keys it is looked up under. */
module Shadows {
  import opened Arithmetic
  import opened Options
  import opened Huffman

  const SHADOW_PREFIX_LEN := 8
  const VALUE_PREFIX := "kl::"

  // What a shadow looks like: the prefix, then bytes of the alphabet with short codes.
  predicate IsShadow(s: string) {
    |s| >= 4 && s[..4] == VALUE_PREFIX && forall i :: 4 <= i < |s| ==> InBucket(s[i])
  }

  predicate InBucket(c: char) {
    c in ALPHABET && MIN_BITS <= CodeLen(c) <= MAX_BITS
  }

  // ---- When a value has a shadow ----

  // CanShadow: returns no error. prefixBits is the start-up value of prefixHuffmanBits.
  predicate CanShadow(originalLen: int, realHuffmanBits: int) {
    var tailLen := originalLen - |VALUE_PREFIX|;
    var tailBits := realHuffmanBits - HuffmanBits(VALUE_PREFIX);
    originalLen >= |VALUE_PREFIX| && tailBits >= tailLen * MIN_BITS && tailBits <= tailLen * MAX_BITS
  }

  // The tails whose bytes all come from the buckets have every number of bits between the bounds, and no other.
  predicate IsTail(t: string) {
    forall i :: 0 <= i < |t| ==> InBucket(t[i])
  }

  lemma {:induction false} TailBits(t: string)
    requires IsTail(t)
    ensures |t| * MIN_BITS <= HuffmanBits(t) <= |t| * MAX_BITS
  {
    if t != "" {
      assert InBucket(t[0]);
      hide InBucket, CodeLen;
      TailBits(t[1..]);
    }
  }

  // The lowest and highest code length a byte can have when `left` bytes must still hold the rest.
  function Lo(remaining: int, left: nat): (r: int) {
    if remaining - left * MAX_BITS > MIN_BITS then remaining - left * MAX_BITS else MIN_BITS
  }

  function Hi(remaining: int, left: nat): (r: int) {
    if remaining - left * MIN_BITS < MAX_BITS then remaining - left * MIN_BITS else MAX_BITS
  }

  // The window is never empty, and any code length in it leaves a feasible rest.
  lemma Window(remaining: int, left: nat, k: int)
    requires (left + 1) * MIN_BITS <= remaining <= (left + 1) * MAX_BITS
    ensures MIN_BITS <= Lo(remaining, left) <= Hi(remaining, left) <= MAX_BITS
    ensures Lo(remaining, left) <= k <= Hi(remaining, left) ==> left * MIN_BITS <= remaining - k <= left * MAX_BITS
  {
  }

  lemma {:induction false} MakeTail(n: nat, bits: nat) returns (t: string)
    requires n * MIN_BITS <= bits <= n * MAX_BITS
    ensures IsTail(t) && |t| == n && HuffmanBits(t) == bits
  {
    t := "";
    if n > 0 {
      var k := Lo(bits, n - 1);
      Window(bits, n - 1, k);
      BucketsNotEmpty(k);
      var c := Bucket(ALPHABET, k)[0];
      BucketHas(ALPHABET, k, c);
      hide CodeLen;
      var rest := MakeTail(n - 1, bits - k);
      t := [c] + rest;
      assert t[1..] == rest;
    }
  }

  lemma ShadowParts(s: string)
    requires |s| >= 4 && s[..4] == VALUE_PREFIX
    ensures IsShadow(s) <==> IsTail(s[4..])
    ensures HuffmanBits(s) == HuffmanBits(VALUE_PREFIX) + HuffmanBits(s[4..])
  {
    hide InBucket, CodeLen;
    assert s == VALUE_PREFIX + s[4..];
    BitsAppend(VALUE_PREFIX, s[4..]);
    if IsTail(s[4..]) {
      forall i | 4 <= i < |s| ensures InBucket(s[i]) {
        assert s[i] == s[4..][i - 4];
      }
    }
  }

  // A shadow of a length and a number of bits exists exactly when CanShadow accepts them.
  lemma CanShadowExactly(originalLen: int, realHuffmanBits: int)
    ensures CanShadow(originalLen, realHuffmanBits) <==>
            exists s: string :: |s| == originalLen && HuffmanBits(s) == realHuffmanBits && IsShadow(s)
  {
    hide CodeLen, InBucket, HuffmanBits;
    if CanShadow(originalLen, realHuffmanBits) {
      var t := MakeTail(originalLen - 4, realHuffmanBits - HuffmanBits(VALUE_PREFIX));
      var s := VALUE_PREFIX + t;
      assert s[..4] == VALUE_PREFIX && s[4..] == t;
      ShadowParts(s);
      assert |s| == originalLen && HuffmanBits(s) == realHuffmanBits && IsShadow(s);
    }
    forall s: string | |s| == originalLen && HuffmanBits(s) == realHuffmanBits && IsShadow(s)
      ensures CanShadow(originalLen, realHuffmanBits)
    {
      ShadowParts(s);
      TailBits(s[4..]);
    }
  }

  // ---- Minting ----

  // A shadow for a value of the given length and bits.
  predicate Shadowing(s: string, originalLen: int, realHuffmanBits: int) {
    |s| == originalLen && HuffmanBits(s) == realHuffmanBits && IsShadow(s)
  }

  // generateShadowValue: the random draws are arbitrary, and every draw has something to draw from.
  method GenerateShadowValue(buckets: array<string>, originalLen: int, realHuffmanBits: int) returns (r: Option<string>)
    requires buckets.Length == MAX_BITS + 1
    requires forall n :: MIN_BITS <= n <= MAX_BITS ==> buckets[n] == Bucket(ALPHABET, n)
    ensures r.Some? <==> CanShadow(originalLen, realHuffmanBits)
    ensures r.Some? ==> Shadowing(r.value, originalLen, realHuffmanBits)
  {
    hide CodeLen, InBucket, HuffmanBits, Bucket;
    if !CanShadow(originalLen, realHuffmanBits) {
      return None;
    }
    var tailLen: nat := originalLen - |VALUE_PREFIX|;
    var tailBits := realHuffmanBits - HuffmanBits(VALUE_PREFIX);
    var tail := new char[tailLen](_ => '0');
    var remaining := tailBits;
    HuffmanNothing();
    var i := 0;
    while i < tailLen
      invariant 0 <= i <= tailLen
      invariant (tailLen - i) * MIN_BITS <= remaining <= (tailLen - i) * MAX_BITS
      invariant IsTail(tail[..i]) && HuffmanBits(tail[..i]) == tailBits - remaining
    {
      var left := tailLen - i - 1;
      var lo := MIN_BITS;
      if remaining - left * MAX_BITS > lo {
        lo := remaining - left * MAX_BITS;
      }
      var hi := MAX_BITS;
      if remaining - left * MIN_BITS < hi {
        hi := remaining - left * MIN_BITS;
      }
      Window(remaining, left, lo);
      var k :| lo <= k <= hi;
      Window(remaining, left, k);
      BucketsNotEmpty(k);
      var idx :| 0 <= idx < |buckets[k]|;
      ghost var before := tail[..i];
      tail[i] := buckets[k][idx];
      assert tail[..i + 1] == before + [tail[i]];
      Grow(before, k, tail[i]);
      remaining := remaining - k;
      i := i + 1;
    }
    var s := VALUE_PREFIX + tail[..];
    assert tail[..] == tail[..tailLen];
    assert s[..4] == VALUE_PREFIX && s[4..] == tail[..];
    ShadowParts(s);
    r := Some(s);
  }

  lemma HuffmanNothing()
    ensures HuffmanBits("") == 0
  {
  }

  lemma Grow(t: string, k: nat, c: char)
    requires IsTail(t) && MIN_BITS <= k <= MAX_BITS && c in Bucket(ALPHABET, k)
    ensures IsTail(t + [c]) && HuffmanBits(t + [c]) == HuffmanBits(t) + k
  {
    BucketHas(ALPHABET, k, c);
    hide CodeLen, Bucket;
    BitsAppend(t, [c]);
    assert HuffmanBits([c]) == k;
  }

  // A shadow with the value's length and bits has the value's encoded length, so the value fits its slot
  // without padding; up to 128 bytes, without truncation either. No shadow of 8 bytes or more lacks a
  // raw key.
  lemma SlotFits(s: string, real': string)
    requires Shadowing(s, |real'|, HuffmanBits(real'))
    ensures |AppendHuffmanString(s)| == |AppendHuffmanString(real')| <= |real'|
  {
    hide CodeLen, InBucket;
    ShadowParts(s);
    TailBits(s[4..]);
    PrefixBits();
  }

  lemma PrefixBits()
    ensures HuffmanBits(VALUE_PREFIX) == 27
    ensures CodeLen('k') == 7 && CodeLen('l') == 6 && CodeLen(':') == 7
  {
    PrefixLen('k');
    PrefixLen('l');
    PrefixLen(':');
    hide CodeLen;
    assert VALUE_PREFIX[1..] == "l::" && "l::"[1..] == "::" && "::"[1..] == ":";
  }

  lemma PrefixLen(c: char)
    requires c == 'k' || c == 'l' || c == ':'
    ensures CodeLen(c) == if c == 'l' then 6 else 7
  {
    hide LongLen, Symbols;
    PrefixNotIn(c);
    PrefixIn(c);
  }

  lemma PrefixNotIn(c: char)
    requires c == 'k' || c == 'l' || c == ':'
    ensures c !in Symbols(5) && (c != 'l' ==> c !in Symbols(6))
  {
    hide LongSymbols;
  }

  lemma PrefixIn(c: char)
    requires c == 'k' || c == 'l' || c == ':'
    ensures c in Symbols(if c == 'l' then 6 else 7)
  {
    hide LongSymbols;
  }

  // ---- Keys ----

  // The two keys a shadow can appear under: its first bytes, and those of its Huffman encoding.
  function RawKey(s: string): (k: string)
    requires |s| >= SHADOW_PREFIX_LEN
    ensures |k| == SHADOW_PREFIX_LEN
  {
    s[..SHADOW_PREFIX_LEN]
  }

  // huffmanPlaceholderKey
  function HuffmanPlaceholderKey(s: string): (k: Option<string>)
    ensures k.Some? <==> HuffmanBits(s) > 56
  {
    var huff := AppendHuffmanString(s);
    if |huff| < SHADOW_PREFIX_LEN then None else Some(huff[..SHADOW_PREFIX_LEN])
  }

  // placeholderKeys
  function PlaceholderKeys(shadow: string): (keys: seq<string>) {
    if |shadow| < SHADOW_PREFIX_LEN then []
    else match HuffmanPlaceholderKey(shadow)
         case None => [RawKey(shadow)]
         case Some(huff) => [RawKey(shadow), huff]
  }

  // A shadow's encoding starts with a 1 bit: that of 'k'.
  lemma HuffmanKeyIsHigh(s: string)
    requires IsShadow(s) && HuffmanPlaceholderKey(s).Some?
    ensures HuffmanPlaceholderKey(s).value[0] >= 128 as char
  {
    var e := EncodeBits(s);
    var b := Padded(e)[..8];
    PrefixLen('k');
    assert s[0] == VALUE_PREFIX[0] == 'k';
    StartsCode8('k', e, b);
    assert AppendHuffmanString(s)[0] == ByteOf(b);
    ValueBound(b);
  }

  lemma StartsCode8(c: char, e: seq<bool>, b: seq<bool>)
    requires CodeLen(c) == 7 && CodeBits(c) <= e && |e| >= 8 && |b| == 8 && b == Padded(e)[..8]
    ensures Value(b) >= 128
  {
    hide Symbols, CodeLen, Code;
    assert Padded(e)[..|e|] == e;
    assert b == e[..8];
    assert CodeBits(c) == e[..7] == b[..7];
    assert Short(c);
    StartsCode(b, c);
    ShortCode(c);
    assert Pow2(1) == 2;
  }

  lemma NoRawIsHuffman(s: string, t: string)
    requires IsShadow(s) && IsShadow(t) && |s| >= SHADOW_PREFIX_LEN && HuffmanPlaceholderKey(t).Some?
    ensures RawKey(s) != HuffmanPlaceholderKey(t).value
  {
    HuffmanKeyIsHigh(t);
    assert RawKey(s)[0] == s[..4][0] == 'k';
  }

  // "kl::" and the four bytes after it are always within the first 64 bits of the encoding, so shadows with
  // the same Huffman key have the same raw key.
  lemma SameHuffmanSameRaw(s: string, t: string)
    requires IsShadow(s) && IsShadow(t) && |s| >= SHADOW_PREFIX_LEN && |t| >= SHADOW_PREFIX_LEN
    requires HuffmanPlaceholderKey(s).Some? && HuffmanPlaceholderKey(s) == HuffmanPlaceholderKey(t)
    ensures RawKey(s) == RawKey(t)
  {
    var x, y := Padded(EncodeBits(s)), Padded(EncodeBits(t));
    hide EncodeBits, HuffmanBits, CodeLen, InBucket, Padded, Bytes;
    BytesInjective(x, y, 8);
    TailStarts(s, x);
    TailStarts(t, y);
    SliceAgree(x, y, 27, 32, 64);
    SameChars(s[4..8], t[4..8], x[27..], y[27..]);
    assert RawKey(s) == s[..4] + s[4..8] && RawKey(t) == t[..4] + t[4..8];
  }

  lemma TailStarts(s: string, x: seq<bool>)
    requires IsShadow(s) && |s| >= SHADOW_PREFIX_LEN && x == Padded(EncodeBits(s)) && |x| >= 64
    ensures AllShort(s[4..8]) && EncodeBits(s[4..8]) <= x[27..]
  {
    var e := EncodeBits(s);
    hide EncodeBits, HuffmanBits, CodeLen, Symbols, Code;
    forall i | 0 <= i < 4 ensures Short(s[4..8][i]) {
      assert InBucket(s[4 + i]);
    }
    hide InBucket;
    assert s == VALUE_PREFIX + (s[4..8] + s[8..]);
    EncodeAppend(VALUE_PREFIX, s[4..8] + s[8..]);
    EncodeAppend(s[4..8], s[8..]);
    PrefixBits();
    assert x[..|e|] == e;
    TailAfter(x, e, EncodeBits(VALUE_PREFIX), EncodeBits(s[4..8]), EncodeBits(s[8..]));
  }

  lemma TailAfter(x: seq<bool>, e: seq<bool>, a: seq<bool>, b: seq<bool>, c: seq<bool>)
    requires |e| <= |x| && x[..|e|] == e && e == a + (b + c) && |a| == 27
    ensures b <= x[27..]
  {
    assert b == e[27..][..|b|] == x[27..][..|b|];
  }
}
