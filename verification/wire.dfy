/** Bytes on the wire: big-endian numbers, and the bytes a hostname may have. */
module Wire {
  type Byte = n: nat | n < 256

  // The room for a hostname, its terminating 0 included.
  const MAX_HOST_LEN := 64

  function Rd16(b: seq<Byte>, off: nat): (n: nat)
    requires off + 2 <= |b|
    ensures n < 0x1_0000
  {
    Rd8(b, off) * 256 + Rd8(b, off + 1)
  }

  function Rd8(b: seq<Byte>, off: nat): (n: nat)
    requires off < |b|
    ensures n < 256
  {
    b[off]
  }

  function U16(n: nat): (b: seq<Byte>)
    requires n < 0x1_0000
    ensures |b| == 2
  {
    [n / 256, n % 256]
  }

  function U24(n: nat): (b: seq<Byte>)
    requires n < 0x100_0000
    ensures |b| == 3
  {
    [n / 0x1_0000, n / 256 % 256, n % 256]
  }

  // sni_host_char_ok: a-z, 0-9, '-', '.', '_'
  predicate HostByte(c: Byte) {
    0x61 <= c <= 0x7a || 0x30 <= c <= 0x39 || c == 0x2d || c == 0x2e || c == 0x5f
  }

  function Lower(c: Byte): (r: Byte) {
    if 0x41 <= c <= 0x5a then c + 0x20 else c
  }

  // By character: the small letters, the digits, "-", "." and "_"; and only the capital letters become others.
  lemma HostBytesExactly(c: Byte)
    ensures HostByte(c) <==> (var ch := c as char; 'a' <= ch <= 'z' || '0' <= ch <= '9' || ch == '-' || ch == '.' || ch == '_')
    ensures Lower(c) == if 'A' <= c as char <= 'Z' then c + 32 else c
  {
  }

  function LowerAll(s: seq<Byte>): (t: seq<Byte>)
    ensures |t| == |s| && forall i :: 0 <= i < |s| ==> t[i] == Lower(s[i])
  {
    seq(|s|, i requires 0 <= i < |s| => Lower(s[i]))
  }

  function Text(s: seq<Byte>): (t: string)
    ensures |t| == |s|
  {
    seq(|s|, i requires 0 <= i < |s| => s[i] as char)
  }

  // v has the bytes of p at off, as far as v goes.
  predicate Agrees(v: seq<Byte>, off: nat, p: seq<Byte>) {
    forall i :: 0 <= i < |p| && off + i < |v| ==> v[off + i] == p[i]
  }

  lemma AgreesSplit(v: seq<Byte>, off: nat, p: seq<Byte>, q: seq<Byte>)
    ensures Agrees(v, off, p + q) <==> Agrees(v, off, p) && Agrees(v, off + |p|, q)
  {
    if Agrees(v, off, p + q) {
      forall i | 0 <= i < |p| && off + i < |v| ensures v[off + i] == p[i] {
        assert (p + q)[i] == p[i];
      }
      forall i | 0 <= i < |q| && off + |p| + i < |v| ensures v[off + |p| + i] == q[i] {
        assert (p + q)[|p| + i] == q[i];
      }
    }
    if Agrees(v, off, p) && Agrees(v, off + |p|, q) {
      forall i | 0 <= i < |p + q| && off + i < |v| ensures v[off + i] == (p + q)[i] {
        assert i >= |p| ==> v[off + |p| + (i - |p|)] == q[i - |p|];
      }
    }
  }

  // Four parts in a row.
  lemma AgreesJoin(v: seq<Byte>, off: nat, a: seq<Byte>, b: seq<Byte>, c: seq<Byte>, d: seq<Byte>)
    ensures Agrees(v, off, a + (b + (c + d))) <==>
              && Agrees(v, off, a) && Agrees(v, off + |a|, b) && Agrees(v, off + |a| + |b|, c)
              && Agrees(v, off + |a| + |b| + |c|, d)
  {
    hide Agrees;
    AgreesSplit(v, off + |a| + |b|, c, d);
    AgreesSplit(v, off + |a|, b, c + d);
    AgreesSplit(v, off, a, b + (c + d));
  }

  // A number that is wholly there is read back.
  lemma ReadU16(v: seq<Byte>, off: nat, n: nat)
    requires n < 0x1_0000 && Agrees(v, off, U16(n)) && off + 2 <= |v|
    ensures Rd16(v, off) == n
  {
    assert v[off + 0] == U16(n)[0] && v[off + 1] == U16(n)[1];
  }

  lemma U16Read(v: seq<Byte>, off: nat)
    requires off + 2 <= |v|
    ensures U16(Rd16(v, off)) == v[off..off + 2]
  {
  }

  lemma U24Read(v: seq<Byte>, off: nat)
    requires off + 3 <= |v|
    ensures Rd8(v, off) * 0x1_0000 + Rd16(v, off + 1) < 0x100_0000
    ensures Agrees(v, off, U24(Rd8(v, off) * 0x1_0000 + Rd16(v, off + 1)))
  {
    var a: nat, b: nat, c: nat := v[off], v[off + 1], v[off + 2];
    var n := Rd8(v, off) * 0x1_0000 + Rd16(v, off + 1);
    assert n == a * 0x1_0000 + b * 256 + c;
    assert n / 256 == a * 256 + b;
    assert n / 0x1_0000 == a;
    assert U24(n) == [a, b, c];
  }

  lemma AgreesWhole(v: seq<Byte>, off: nat, p: seq<Byte>)
    requires Agrees(v, off, p) && off + |p| <= |v|
    ensures v[off..off + |p|] == p
  {
    forall i | 0 <= i < |p| ensures v[off..off + |p|][i] == p[i] {
      assert v[off + i] == p[i];
    }
  }
}
