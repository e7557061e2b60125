/** HPACK's Huffman code (Appendix B of RFC 7541) and what shadows need of it: code lengths, the bytes of an
    encoding, and that a short code is found again in the bits it was written to. Strings are Go's: every
    char is a byte. */
module Huffman {
  import opened Arithmetic

  // ---- The code ----

  // The bytes whose code has n bits, in code order. A byte not listed (\n, \r and 22) has 30 bits.
  function Symbols(n: nat): (r: string) {
    match n
    case 5 => "012aceiost"
    case 6 => " %-./3456789=A_bdfghlmnpru"
    case 7 => ":BCDEFGHIJKLMNOPQRSTUVWYjkqvwxyz"
    case 8 => "&*,;XZ"
    case _ => LongSymbols(n)
  }

  function LongSymbols(n: nat): (r: string) {
    match n
    case 10 => "!\"()?"
    case 11 => "'+|"
    case 12 => "#>"
    case 13 => "\0$@[]~"
    case 14 => "^}"
    case 15 => "<`{"
    case 19 => "\\\U{C3}\U{D0}"
    case 20 => "\U{80}\U{82}\U{83}\U{A2}\U{B8}\U{C2}\U{E0}\U{E2}"
    case 21 => "\U{99}\U{A1}\U{A7}\U{AC}\U{B0}\U{B1}\U{B3}\U{D1}\U{D8}\U{D9}\U{E3}\U{E5}\U{E6}"
    case 22 => "\U{81}\U{84}\U{85}\U{86}\U{88}\U{92}\U{9A}\U{9C}\U{A0}\U{A3}\U{A4}\U{A9}\U{AA}\U{AD}\U{B2}\U{B5}\U{B9}"
                 + "\U{BA}\U{BB}\U{BD}\U{BE}\U{C4}\U{C6}\U{E4}\U{E8}\U{E9}"
    case 23 => "\U{01}\U{87}\U{89}\U{8A}\U{8B}\U{8C}\U{8D}\U{8F}\U{93}\U{95}\U{96}\U{97}\U{98}\U{9B}\U{9D}\U{9E}\U{A5}"
                 + "\U{A6}\U{A8}\U{AE}\U{AF}\U{B4}\U{B6}\U{B7}\U{BC}\U{BF}\U{C5}\U{E7}\U{EF}"
    case 24 => "\t\U{8E}\U{90}\U{91}\U{94}\U{9F}\U{AB}\U{CE}\U{D7}\U{E1}\U{EC}\U{ED}"
    case 25 => "\U{C7}\U{CF}\U{EA}\U{EB}"
    case 26 => "\U{C0}\U{C1}\U{C8}\U{C9}\U{CA}\U{CD}\U{D2}\U{D5}\U{DA}\U{DB}\U{EE}\U{F0}\U{F2}\U{F3}\U{FF}"
    case 27 => "\U{CB}\U{CC}\U{D3}\U{D4}\U{D6}\U{DD}\U{DE}\U{DF}\U{F1}\U{F4}\U{F5}\U{F6}\U{F7}\U{F8}\U{FA}\U{FB}\U{FC}\U{FD}\U{FE}"
    case 28 => "\U{02}\U{03}\U{04}\U{05}\U{06}\U{07}\U{08}\U{0B}\U{0C}\U{0E}\U{0F}\U{10}\U{11}\U{12}\U{13}\U{14}\U{15}"
                 + "\U{17}\U{18}\U{19}\U{1A}\U{1B}\U{1C}\U{1D}\U{1E}\U{1F}\U{7F}\U{DC}\U{F9}"
    case _ => "\n\r\U{16}"
  }

  // The code of the first of them.
  function FirstCode(n: nat): (r: nat) {
    match n
    case 5 => 0x0 case 6 => 0x14 case 7 => 0x5c case 8 => 0xf8
    case 10 => 0x3f8 case 11 => 0x7fa case 12 => 0xffa case 13 => 0x1ff8 case 14 => 0x3ffc case 15 => 0x7ffc
    case 19 => 0x7fff0 case 20 => 0xfffe6 case 21 => 0x1fffdc case 22 => 0x3fffd2 case 23 => 0x7fffd8
    case 24 => 0xffffea case 25 => 0x1ffffec case 26 => 0x3ffffe0 case 27 => 0x7ffffde case 28 => 0xfffffe2
    case _ => 0x3ffffffc
  }

  function CodeLen(c: char): (n: nat)
    ensures 5 <= n <= 30
  {
    if c in Symbols(5) then 5 else if c in Symbols(6) then 6 else if c in Symbols(7) then 7 else
    if c in Symbols(8) then 8 else LongLen(c)
  }

  function LongLen(c: char): (n: nat)
    ensures 10 <= n <= 30
  {
    if c in Symbols(10) then 10 else if c in Symbols(11) then 11 else if c in Symbols(12) then 12 else
    if c in Symbols(13) then 13 else if c in Symbols(14) then 14 else if c in Symbols(15) then 15 else
    if c in Symbols(19) then 19 else if c in Symbols(20) then 20 else if c in Symbols(21) then 21 else
    if c in Symbols(22) then 22 else if c in Symbols(23) then 23 else if c in Symbols(24) then 24 else
    if c in Symbols(25) then 25 else if c in Symbols(26) then 26 else if c in Symbols(27) then 27 else
    if c in Symbols(28) then 28 else 30
  }

  function IndexOf(s: string, c: char): (i: nat)
    ensures c in s ==> i < |s| && s[i] == c
  {
    if s == "" || s[0] == c then 0 else 1 + IndexOf(s[1..], c)
  }

  function Code(c: char): (r: nat) {
    FirstCode(CodeLen(c)) + IndexOf(Symbols(CodeLen(c)), c)
  }

  // ---- Encoding ----

  // The low n bits of v, most significant first.
  function BitsOf(v: nat, n: nat): (b: seq<bool>)
    ensures |b| == n
  {
    if n == 0 then [] else BitsOf(v / 2, n - 1) + [v % 2 == 1]
  }

  function Value(b: seq<bool>): (r: nat) {
    if b == [] then 0 else 2 * Value(b[..|b| - 1]) + if b[|b| - 1] then 1 else 0
  }

  function CodeBits(c: char): (b: seq<bool>)
    ensures |b| == CodeLen(c)
  {
    BitsOf(Code(c), CodeLen(c))
  }

  function HuffmanBits(s: string): (n: nat)
    ensures n >= 5 * |s|
  {
    if s == "" then 0 else CodeLen(s[0]) + HuffmanBits(s[1..])
  }

  function EncodeBits(s: string): (b: seq<bool>)
    ensures |b| == HuffmanBits(s)
  {
    if s == "" then [] else CodeBits(s[0]) + EncodeBits(s[1..])
  }

  function Ones(n: nat): (b: seq<bool>)
    ensures |b| == n
  {
    seq(n, i => true)
  }

  // Padding to whole bytes with ones.
  function Padded(b: seq<bool>): (p: seq<bool>)
    ensures |p| % 8 == 0 && |b| <= |p| <= |b| + 7 && p[..|b|] == b
  {
    b + Ones((8 - |b| % 8) % 8)
  }

  function ByteOf(b: seq<bool>): (c: char)
    requires |b| == 8
  {
    ValueBound(b);
    assert Value(b) < 256 by {
      assert Pow2(8) == 256;
    }
    Value(b) as char
  }

  function Bytes(b: seq<bool>): (s: string)
    requires |b| % 8 == 0
    ensures |s| == |b| / 8
  {
    if b == [] then "" else [ByteOf(b[..8])] + Bytes(b[8..])
  }

  // hpack.AppendHuffmanString(nil, s)
  function AppendHuffmanString(s: string): (e: string)
    ensures |e| == (HuffmanBits(s) + 7) / 8
  {
    Bytes(Padded(EncodeBits(s)))
  }

  // ---- Bits and values ----

  lemma {:induction false} ValueBound(b: seq<bool>)
    ensures Value(b) < Pow2(|b|)
  {
    if b != [] {
      ValueBound(b[..|b| - 1]);
    }
  }

  lemma {:induction false} ValueOfBits(v: nat, n: nat)
    requires v < Pow2(n)
    ensures Value(BitsOf(v, n)) == v
  {
    if n > 0 {
      ValueOfBits(v / 2, n - 1);
    }
  }

  lemma {:induction false} ValueInjective(a: seq<bool>, b: seq<bool>)
    requires |a| == |b| && Value(a) == Value(b)
    ensures a == b
  {
    if a != [] {
      var n := |a| - 1;
      ValueInjective(a[..n], b[..n]);
      assert a == a[..n] + [a[n]] && b == b[..n] + [b[n]];
    }
  }

  lemma ByteOfInjective(a: seq<bool>, b: seq<bool>)
    requires |a| == |b| == 8 && ByteOf(a) == ByteOf(b)
    ensures a == b
  {
    ValueBound(a);
    ValueBound(b);
    assert Pow2(8) == 256;
    assert Value(a) == ByteOf(a) as int && Value(b) == ByteOf(b) as int;
    ValueInjective(a, b);
  }

  // Equal bytes come from equal bits.
  lemma {:induction false} BytesInjective(a: seq<bool>, b: seq<bool>, n: nat)
    requires |a| % 8 == 0 && |b| % 8 == 0 && 8 * n <= |a| && 8 * n <= |b|
    requires Bytes(a)[..n] == Bytes(b)[..n]
    ensures a[..8 * n] == b[..8 * n]
  {
    if n > 0 {
      assert Bytes(a)[..n][0] == Bytes(b)[..n][0];
      ByteOfInjective(a[..8], b[..8]);
      assert Bytes(a)[1..] == Bytes(a[8..]) && Bytes(b)[1..] == Bytes(b[8..]);
      assert Bytes(a)[..n][1..] == Bytes(a)[1..][..n - 1] && Bytes(b)[..n][1..] == Bytes(b)[1..][..n - 1];
      BytesInjective(a[8..], b[8..], n - 1);
      assert a[..8 * n] == a[..8] + a[8..][..8 * (n - 1)];
      assert b[..8 * n] == b[..8] + b[8..][..8 * (n - 1)];
    }
  }

  // ---- Short codes are found again ----

  predicate Short(c: char) {
    CodeLen(c) <= 8
  }

  predicate AllShort(s: string) {
    forall i :: 0 <= i < |s| ==> Short(s[i])
  }

  // The leading k of n bits are the value's high bits.
  lemma {:induction false} ValueOfPrefix(b: seq<bool>, k: nat)
    requires k <= |b|
    ensures Value(b[..k]) == Value(b) / Pow2(|b| - k)
  {
    if k == |b| {
      assert b[..k] == b;
    } else {
      var n := |b| - 1;
      ValueOfPrefix(b[..n], k);
      assert b[..n][..k] == b[..k];
      HalvesTwice(Value(b), Pow2(n - k));
    }
  }

  lemma HalvesTwice(v: nat, p: nat)
    requires p > 0
    ensures v / 2 / p == v / (2 * p)
  {
    var q, r := v / 2 / p, v / 2 % p;
    assert v == 2 * (p * q + r) + v % 2;
    assert v == (2 * p) * q + (2 * r + v % 2);
    DivUnique(v, 2 * p, q, 2 * r + v % 2);
  }

  lemma CodeLenIsOfSymbols(c: char)
    requires Short(c)
    ensures c in Symbols(CodeLen(c))
  {
  }

  // The codes of each short length.
  lemma ShortCode(c: char)
    requires Short(c)
    ensures 5 <= CodeLen(c) <= 8 && Code(c) < Pow2(CodeLen(c))
    ensures CodeLen(c) == 5 ==> Code(c) < 10
    ensures CodeLen(c) == 6 ==> 20 <= Code(c) < 46
    ensures CodeLen(c) == 7 ==> 92 <= Code(c) < 124
    ensures CodeLen(c) == 8 ==> 248 <= Code(c)
    ensures FirstCode(CodeLen(c)) <= Code(c) < FirstCode(CodeLen(c)) + |Symbols(CodeLen(c))|
    ensures Symbols(CodeLen(c))[Code(c) - FirstCode(CodeLen(c))] == c
  {
    var n := CodeLen(c);
    CodeLenIsOfSymbols(c);
    hide CodeLen;
    assert |Symbols(5)| == 10 && |Symbols(6)| == 26 && |Symbols(7)| == 32 && |Symbols(8)| == 6;
    assert Pow2(5) == 32 && Pow2(6) == 64 && Pow2(7) == 128 && Pow2(8) == 256;
  }

  // Eight bits that start with the code of c are in c's range.
  lemma StartsCode(b: seq<bool>, c: char)
    requires |b| == 8 && Short(c) && CodeBits(c) <= b
    ensures Value(b) / Pow2(8 - CodeLen(c)) == Code(c)
  {
    ShortCode(c);
    ValueOfBits(Code(c), CodeLen(c));
    assert CodeBits(c) == b[..CodeLen(c)];
    ValueOfPrefix(b, CodeLen(c));
  }

  // No short code starts another.
  lemma NextChar(b: seq<bool>, c: char, d: char)
    requires |b| == 8 && Short(c) && Short(d) && CodeBits(c) <= b && CodeBits(d) <= b
    ensures c == d
  {
    hide CodeBits, Code, CodeLen, Symbols, FirstCode, Value, Pow2;
    StartsCode(b, c);
    StartsCode(b, d);
    ShortCode(c);
    ShortCode(d);
    SameLength(Value(b), CodeLen(c), CodeLen(d), Code(c), Code(d));
  }

  ghost predicate InRangeOf(n: nat, code: nat) {
    && (n == 5 ==> code < 10) && (n == 6 ==> 20 <= code < 46) && (n == 7 ==> 92 <= code < 124) && (n == 8 ==> 248 <= code)
  }

  lemma SameLength(v: nat, n: nat, m: nat, code: nat, other: nat)
    requires 5 <= n <= 8 && 5 <= m <= 8 && InRangeOf(n, code) && InRangeOf(m, other)
    requires v / Pow2(8 - n) == code && v / Pow2(8 - m) == other
    ensures n == m
  {
    assert Pow2(0) == 1 && Pow2(1) == 2 && Pow2(2) == 4 && Pow2(3) == 8;
  }

  // Two bit strings that agree on their first 8 * n bits and start with the codes of n short characters
  // each start with the codes of the same characters.
  lemma {:induction false} SameChars(s: string, t: string, x: seq<bool>, y: seq<bool>)
    requires |s| == |t| && AllShort(s) && AllShort(t)
    requires EncodeBits(s) <= x && EncodeBits(t) <= y
    requires 8 * |s| <= |x| && 8 * |s| <= |y| && x[..8 * |s|] == y[..8 * |s|]
    ensures s == t
  {
    if s != "" {
      SameFirst(s, t, x, y);
      hide *;
      var n := CodeLen(s[0]);
      SameChars(s[1..], t[1..], x[n..], y[n..]);
      FirstAndRest(s, t);
    }
  }

  lemma FirstAndRest(s: string, t: string)
    requires |s| == |t| > 0 && s[0] == t[0] && s[1..] == t[1..]
    ensures s == t
  {
    assert s == [s[0]] + s[1..] && t == [t[0]] + t[1..];
  }

  lemma SameFirst(s: string, t: string, x: seq<bool>, y: seq<bool>)
    requires |s| == |t| > 0 && AllShort(s) && AllShort(t)
    requires EncodeBits(s) <= x && EncodeBits(t) <= y
    requires 8 * |s| <= |x| && 8 * |s| <= |y| && x[..8 * |s|] == y[..8 * |s|]
    ensures s[0] == t[0] && AllShort(s[1..]) && AllShort(t[1..])
    ensures var n, m := CodeLen(s[0]), 8 * |s[1..]|;
            && n + m <= |x| && n + m <= |y| && x[n..][..m] == y[n..][..m]
            && EncodeBits(s[1..]) <= x[n..] && EncodeBits(t[1..]) <= y[n..]
  {
    assert Short(s[0]) && Short(t[0]);
    StartsFirst(s, x);
    StartsFirst(t, y);
    hide CodeLen, CodeBits, EncodeBits;
    SliceAgree(x, y, 0, 8, 8 * |s|);
    assert x[0..] == x && y[0..] == y;
    NextChar(x[..8], s[0], t[0]);
    assert Short(s[0]) ==> CodeLen(s[0]) <= 8;
    SliceAgree(x, y, CodeLen(s[0]), 8 * |s[1..]|, 8 * |s|);
  }

  lemma SliceAgree(x: seq<bool>, y: seq<bool>, from: nat, k: nat, m: nat)
    requires from + k <= m <= |x| && m <= |y| && x[..m] == y[..m]
    ensures x[from..][..k] == y[from..][..k]
  {
    assert x[from..][..k] == x[..m][from..from + k] && y[from..][..k] == y[..m][from..from + k];
  }

  lemma StartsFirst(s: string, x: seq<bool>)
    requires s != "" && Short(s[0]) && EncodeBits(s) <= x && 8 <= |x|
    ensures CodeBits(s[0]) <= x[..8]
    ensures EncodeBits(s[1..]) <= x[CodeLen(s[0])..]
  {
    hide Code, Symbols, FirstCode;
    var n, e := CodeLen(s[0]), EncodeBits(s);
    assert e == CodeBits(s[0]) + EncodeBits(s[1..]);
    assert e[..n] == CodeBits(s[0]) && e[n..] == EncodeBits(s[1..]);
    assert x[..|e|] == e;
    assert x[..8][..n] == x[..|e|][..n];
    assert x[n..][..|e| - n] == x[..|e|][n..];
  }

  lemma {:induction false} EncodeAppend(s: string, t: string)
    ensures EncodeBits(s + t) == EncodeBits(s) + EncodeBits(t)
  {
    hide CodeLen, Code, CodeBits, Symbols, FirstCode, HuffmanBits;
    if s == "" {
      assert s + t == t;
    } else {
      EncodeAppend(s[1..], t);
      assert (s + t)[1..] == s[1..] + t;
      Associates(CodeBits(s[0]), EncodeBits(s[1..]), EncodeBits(t));
    }
  }

  lemma Associates(a: seq<bool>, b: seq<bool>, c: seq<bool>)
    ensures a + (b + c) == a + b + c
  {
  }

  lemma {:induction false} BitsAppend(s: string, t: string)
    ensures HuffmanBits(s + t) == HuffmanBits(s) + HuffmanBits(t)
  {
    hide CodeLen;
    if s == "" {
      assert s + t == t;
    } else {
      BitsAppend(s[1..], t);
      assert (s + t)[1..] == s[1..] + t;
    }
  }

  // ---- The tables computed at start-up ----

  const DIGITS := "0123456789"
  const LOWER := "abcdefghijklmnopqrstuvwxyz"
  const UPPER := "ABCDEFGHIJKLMNOPQRSTUVWXYZ"
  const PUNCTUATION := "&*,;"
  const ALPHABET := DIGITS + LOWER + UPPER + PUNCTUATION
  const MIN_BITS := 5
  const MAX_BITS := 8

  // hpack.HuffmanEncodeLength
  function HuffmanEncodeLength(s: string): (r: nat) {
    (HuffmanBits(s) + 7) / 8
  }

  function Repeat(c: char, n: nat): (s: string)
    ensures |s| == n
  {
    if n == 0 then "" else [c] + Repeat(c, n - 1)
  }

  lemma {:induction false} RepeatBits(c: char, n: nat)
    ensures HuffmanBits(Repeat(c, n)) == n * CodeLen(c)
  {
    hide CodeLen;
    if n > 0 {
      RepeatBits(c, n - 1);
      assert Repeat(c, n)[1..] == Repeat(c, n - 1);
    }
  }

  // The alphabet's bytes of n bits, in alphabet order.
  function Bucket(s: string, n: nat): (b: string) {
    if s == "" then "" else
    Bucket(s[..|s| - 1], n) + if CodeLen(s[|s| - 1]) == n then [s[|s| - 1]] else ""
  }

  lemma {:induction false} BucketHas(s: string, n: nat, c: char)
    ensures c in Bucket(s, n) <==> c in s && CodeLen(c) == n
  {
    hide CodeLen;
    if s != "" {
      BucketHas(s[..|s| - 1], n, c);
      assert s == s[..|s| - 1] + [s[|s| - 1]];
    }
  }

  lemma BucketsNotEmpty(n: nat)
    requires MIN_BITS <= n <= MAX_BITS
    ensures Bucket(ALPHABET, n) != ""
  {
    hide Symbols, LongLen;
    assert '0' in DIGITS && '3' in DIGITS && 'B' in UPPER && '&' in PUNCTUATION;
    var c := Witness(n);
    WitnessLen(n, c);
    assert c in ALPHABET;
    hide CodeLen;
    BucketHas(ALPHABET, n, c);
  }

  function Witness(n: nat): (r: char) {
    if n == 5 then '0' else if n == 6 then '3' else if n == 7 then 'B' else '&'
  }

  lemma WitnessLen(n: nat, c: char)
    requires MIN_BITS <= n <= MAX_BITS && c == Witness(n)
    ensures CodeLen(c) == n
  {
    hide LongLen, Symbols;
    WitnessIn(n, c);
    if n > 5 { WitnessNotIn(n, c, 5); }
    if n > 6 { WitnessNotIn(n, c, 6); }
    if n > 7 { WitnessNotIn(n, c, 7); }
  }

  lemma WitnessIn(n: nat, c: char)
    requires MIN_BITS <= n <= MAX_BITS && c == Witness(n)
    ensures c in Symbols(n)
  {
    hide LongSymbols;
  }

  lemma WitnessNotIn(n: nat, c: char, m: nat)
    requires MIN_BITS <= m < n <= MAX_BITS && c == Witness(n)
    ensures c !in Symbols(m)
  {
    if m == 5 {
      assert Symbols(5) == "012aceiost";
    } else if m == 6 {
      assert Symbols(6) == " %-./3456789=A_bdfghlmnpru";
    } else {
      assert Symbols(7) == ":BCDEFGHIJKLMNOPQRSTUVWYjkqvwxyz";
    }
  }

  // The tables huffmanBitsTable and huffmanBuckets.
  method InitTables() returns (table: array<nat>, buckets: array<string>)
    ensures fresh(table) && fresh(buckets) && table.Length == 256 && buckets.Length == MAX_BITS + 1
    ensures forall b :: 0 <= b < 256 ==> table[b] == CodeLen(b as char)
    ensures forall n :: MIN_BITS <= n <= MAX_BITS ==> buckets[n] == Bucket(ALPHABET, n)
  {
    hide CodeLen;
    table := new nat[256](_ => 0);
    var b := 0;
    while b < 256
      invariant 0 <= b <= 256
      invariant forall k :: 0 <= k < b ==> table[k] == CodeLen(k as char)
    {
      var n := HuffmanEncodeLength(Repeat(b as char, 64));
      RepeatBits(b as char, 64);
      table[b] := n * 8 / 64;
      b := b + 1;
    }
    buckets := new string[MAX_BITS + 1](_ => "");
    var i := 0;
    while i < |ALPHABET|
      invariant 0 <= i <= |ALPHABET|
      invariant forall k :: 0 <= k < 256 ==> table[k] == CodeLen(k as char)
      invariant forall n :: MIN_BITS <= n <= MAX_BITS ==> buckets[n] == Bucket(ALPHABET[..i], n)
    {
      var c := ALPHABET[i];
      AlphabetIsAscii(i);
      assert ALPHABET[..i + 1][..i] == ALPHABET[..i];
      var bits := table[c as int];
      if MIN_BITS <= bits <= MAX_BITS {
        buckets[bits] := buckets[bits] + [c];
      }
      i := i + 1;
    }
    assert ALPHABET[..|ALPHABET|] == ALPHABET;
  }

  lemma AlphabetIsAscii(i: nat)
    requires i < |ALPHABET|
    ensures ALPHABET[i] < 128 as char
  {
    var c := ALPHABET[i];
    assert c in DIGITS || c in LOWER || c in UPPER || c in PUNCTUATION;
    LettersAreAscii(c);
  }

  lemma LettersAreAscii(c: char)
    ensures c in DIGITS || c in PUNCTUATION || c in LOWER || c in UPPER ==> c < 128 as char
  {
    assert c in LOWER ==> c < 128 as char by { LowerIsAscii(c); }
    assert c in UPPER ==> c < 128 as char by { UpperIsAscii(c); }
  }

  lemma LowerIsAscii(c: char)
    ensures c in LOWER ==> 'a' <= c <= 'z'
  {
  }

  lemma UpperIsAscii(c: char)
    ensures c in UPPER ==> 'A' <= c <= 'Z'
  {
  }

  // HuffmanBits, from the table.
  method CountBits(table: array<nat>, s: string) returns (n: nat)
    requires table.Length == 256 && forall b :: 0 <= b < 256 ==> table[b] == CodeLen(b as char)
    requires forall i :: 0 <= i < |s| ==> s[i] < 256 as char
    ensures n == HuffmanBits(s)
  {
    hide CodeLen;
    n := 0;
    for i := 0 to |s|
      invariant n == HuffmanBits(s[..i])
    {
      assert s[..i + 1] == s[..i] + [s[i]];
      BitsAppend(s[..i], [s[i]]);
      n := n + table[s[i] as int];
    }
    assert s[..|s|] == s;
  }
}
