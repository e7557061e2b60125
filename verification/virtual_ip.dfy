/** Free fake IPs: the probing of freeVirtualIP4 and freeVirtualIP6. */
module FreeVirtualIP {
  import opened Arithmetic
  import opened Options

  const MIN_RANGE := 8192

  // An address of one family, as a number. A range is a base aligned to its size, a power of two of
  // at least 2^13; offsets of an IPv6 range span its low 64 bits at most.
  type Addr = nat

  datatype Range = NoRange | Range(six: bool, base: nat, size: nat) {
    predicate Contains(ip: Addr) {
      Range? && base <= ip < base + size
    }

    // The number of offsets fake IPs are taken from.
    function Span(): (s: nat)
      requires Range?
    {
      if six && size > TWO64 then TWO64 else size
    }

    predicate Valid() {
      Range? ==> size >= MIN_RANGE && base % MIN_RANGE == 0 && (!six ==> base + size <= 0x1_0000_0000)
    }

    // Whether the address at an offset may be handed out: not the first or last of the span, and in
    // IPv4 not one ending in .0 or .255.
    predicate Usable(off: nat)
      requires Range?
    {
      off != 0 && off != Span() - 1 && (!six ==> (base + off) % 256 != 0 && (base + off) % 256 != 255)
    }
  }

  function Around(start: nat, i: nat, size: nat): (off: nat)
    requires size > 0
    ensures off < size
  {
    (start + i) % size
  }

  function Start(hash: nat, size: nat): (start: nat)
    requires size > 0
    ensures start < size
  {
    hash % size
  }

  function Offset(r: Range, hash: nat, i: nat): (res: nat)
    requires r.Range? && r.Valid()
  {
    Around(Start(hash, r.Span()), i, r.Span())
  }

  predicate FreeAt(r: Range, hash: nat, i: nat, taken: set<Addr>)
    requires r.Range? && r.Valid()
  {
    r.Usable(Offset(r, hash, i)) && r.base + Offset(r, hash, i) !in taken
  }

  // The address of the first free probe among i..n-1.
  function FirstFree(r: Range, hash: nat, i: nat, n: nat, taken: set<Addr>): (ip: Option<Addr>)
    requires r.Range? && r.Valid()
    decreases n - i
  {
    if i >= n then None
    else if FreeAt(r, hash, i, taken) then Some(r.base + Offset(r, hash, i))
    else FirstFree(r, hash, i + 1, n, taken)
  }

  function ProbeCount(r: Range, taken: set<Addr>): (res: nat)
    requires r.Range?
  {
    if r.six then |taken| + 3 else r.Span()
  }

  function FreeIP(r: Range, hash: nat, taken: set<Addr>): (res: Option<Addr>)
    requires r.Range? && r.Valid()
  {
    FirstFree(r, hash, 0, ProbeCount(r, taken), taken)
  }

  // freeVirtualIP4: probe the whole range once around from the hash.
  method FreeVirtualIP4(r: Range, hash: nat, taken: set<Addr>) returns (ip: Option<Addr>)
    requires r.Range? && r.Valid() && !r.six && hash < TWO64
    ensures ip == FreeIP(r, hash, taken)
  {
    hide FreeAt, Offset, Around, Start;
    var size := r.size;
    var start := Start(hash, size);
    var i := 0;
    while i < size
      invariant 0 <= i <= size
      invariant FreeIP(r, hash, taken) == FirstFree(r, hash, i, size, taken)
    {
      var off := Around(start, i, size);
      Probe(r, hash, i, off, taken);
      if off != 0 && off != size - 1 {
        var v := (r.base + off) % 0x1_0000_0000;
        var last := v % 256;
        if last != 0 && last != 255 && v !in taken {
          return Some(v);
        }
      }
      i := i + 1;
    }
    ip := None;
  }

  lemma Probe(r: Range, hash: nat, i: nat, off: nat, taken: set<Addr>)
    requires r.Range? && r.Valid() && off == Around(Start(hash, r.Span()), i, r.Span())
    ensures off == Offset(r, hash, i) < r.Span()
    ensures FreeAt(r, hash, i, taken) <==> r.Usable(off) && r.base + off !in taken
  {
  }

  // freeVirtualIP6: |taken| + 3 probes on 64-bit offsets, which wrap around.
  method FreeVirtualIP6(r: Range, hash: nat, taken: set<Addr>) returns (ip: Option<Addr>)
    requires r.Range? && r.Valid() && r.six && hash < TWO64 && |taken| < 0x4000_0000_0000_0000
    requires r.size >= TWO64 || r.size <= TWO64 / 2
    ensures ip == FreeIP(r, hash, taken)
  {
    hide FreeAt, Offset, Around, Start;
    var last := if r.size < TWO64 then r.size - 1 else TWO64 - 1;
    var start := if last != TWO64 - 1 then Start(hash, last + 1) else hash;
    var n := (|taken| + 3) % TWO64;
    var i := 0;
    while i < n
      invariant 0 <= i <= n
      invariant FreeIP(r, hash, taken) == FirstFree(r, hash, i, n, taken)
    {
      var off := Wrapped(start, i, last);
      WrappedOffset(r, hash, i, start, last);
      Probe(r, hash, i, off, taken);
      if off != 0 && off != last && r.base + off !in taken {
        return Some(r.base + off);
      }
      i := i + 1;
    }
    ip := None;
  }

  // The offset of a probe in 64-bit arithmetic: the sum wraps at 2^64 by itself.
  function Wrapped(start: nat, i: nat, last: nat): (r: nat) {
    var off := (start + i) % TWO64;
    if last != TWO64 - 1 then off % (last + 1) else off
  }

  lemma WrappedOffset(r: Range, hash: nat, i: nat, start: nat, last: nat)
    requires r.Range? && r.Valid() && hash < TWO64 && i < 0x4000_0000_0000_0003
    requires r.size >= TWO64 || r.size <= TWO64 / 2
    requires last == r.Span() - 1 && r.six
    requires start == if last != TWO64 - 1 then Start(hash, last + 1) else hash
    ensures Wrapped(start, i, last) == Around(Start(hash, r.Span()), i, r.Span())
  {
  }

  // ---- What is found ----

  lemma {:induction false} FirstFreeExact(r: Range, hash: nat, i: nat, n: nat, taken: set<Addr>)
    requires r.Range? && r.Valid() && i <= n
    ensures FirstFree(r, hash, i, n, taken).None? <==> forall k :: i <= k < n ==> !FreeAt(r, hash, k, taken)
    ensures FirstFree(r, hash, i, n, taken).Some? ==>
              exists k :: && i <= k < n && FreeAt(r, hash, k, taken)
                          && FirstFree(r, hash, i, n, taken) == Some(r.base + Offset(r, hash, k))
                          && forall j :: i <= j < k ==> !FreeAt(r, hash, j, taken)
    decreases n - i
  {
    if i < n && !FreeAt(r, hash, i, taken) {
      FirstFreeExact(r, hash, i + 1, n, taken);
    }
  }

  // A fake IP handed out is in the range, not its first address, and not taken.
  lemma FreeIPFresh(r: Range, hash: nat, taken: set<Addr>)
    requires r.Range? && r.Valid() && FreeIP(r, hash, taken).Some?
    ensures var ip := FreeIP(r, hash, taken).value;
            ip !in taken && r.Contains(ip) && ip != r.base && r.Usable(ip - r.base)
  {
    FirstFreeExact(r, hash, 0, ProbeCount(r, taken), taken);
  }

  // ---- The search in its own terms ----

  // The k-th offset tried: from the hash modulo the size of the range (of its low 64 bits, in IPv6) on and around.
  function ProbeAt(r: Range, hash: nat, k: nat): (off: nat)
    requires r.Range? && r.Valid()
  {
    var size := if r.six && r.size > 0x1_0000_0000_0000_0000 then 0x1_0000_0000_0000_0000 else r.size;
    (hash % size + k) % size
  }

  // The address at offset off cannot be handed out: the first or last and, in IPv4, one that ends in .0 or .255.
  predicate Skipped(r: Range, off: nat)
    requires r.Range?
  {
    var size := if r.six && r.size > 0x1_0000_0000_0000_0000 then 0x1_0000_0000_0000_0000 else r.size;
    off == 0 || off == size - 1 || (!r.six && ((r.base + off) % 256 == 0 || (r.base + off) % 256 == 255))
  }

  // The search returns the first address in that order that can be handed out and is not taken.
  lemma FreeIPExactly(r: Range, hash: nat, taken: set<Addr>) returns (k: nat)
    requires r.Range? && r.Valid() && FreeIP(r, hash, taken).Some?
    ensures var ip := r.base + ProbeAt(r, hash, k);
            FreeIP(r, hash, taken) == Some(ip) && ip !in taken && !Skipped(r, ProbeAt(r, hash, k))
    ensures forall j :: 0 <= j < k ==> Skipped(r, ProbeAt(r, hash, j)) || r.base + ProbeAt(r, hash, j) in taken
  {
    hide FreeAt, Offset, Skipped, ProbeAt;
    var n := ProbeCount(r, taken);
    FirstFreeExact(r, hash, 0, n, taken);
    k :| && 0 <= k < n && FreeAt(r, hash, k, taken) && FreeIP(r, hash, taken) == Some(r.base + Offset(r, hash, k))
         && forall j :: 0 <= j < k ==> !FreeAt(r, hash, j, taken);
    ProbeMeans(r, hash, k, taken);
    forall j | 0 <= j < k ensures Skipped(r, ProbeAt(r, hash, j)) || r.base + ProbeAt(r, hash, j) in taken {
      ProbeMeans(r, hash, j, taken);
    }
  }

  lemma ProbeMeans(r: Range, hash: nat, k: nat, taken: set<Addr>)
    requires r.Range? && r.Valid()
    ensures Offset(r, hash, k) == ProbeAt(r, hash, k)
    ensures FreeAt(r, hash, k, taken) <==> !Skipped(r, ProbeAt(r, hash, k)) && r.base + ProbeAt(r, hash, k) !in taken
  {
  }

  // ---- When one is found ----

  lemma MulMono(s: nat, a: nat, b: nat)
    requires a <= b
    ensures s * a <= s * b
  {
  }

  lemma ModOnce(x: nat, s: nat)
    requires s > 0 && x < 2 * s
    ensures x % s == if x < s then x else x - s
  {
    var q, m := x / s, x % s;
    assert x == s * q + m && 0 <= m < s;
    MulMono(s, if q < 2 then q else 2, q);
    assert q == 0 || q == 1;
  }

  lemma Wrap(h: nat, s: nat, off: nat)
    requires s > 0 && h < s && off < s
    ensures (h + (off + s - h) % s) % s == off
  {
    ModOnce(off + s - h, s);
    ModOnce(h + (off + s - h) % s, s);
  }

  // The IPv4 search fails exactly when every usable address of the range is taken.
  lemma FreeIP4FailsIffFull(r: Range, hash: nat, taken: set<Addr>)
    requires r.Range? && r.Valid() && !r.six
    ensures FreeIP(r, hash, taken).None? <==> forall off :: 0 <= off < r.size && r.Usable(off) ==> r.base + off in taken
  {
    FirstFreeExact(r, hash, 0, r.size, taken);
    hide FirstFree;
    if FreeIP(r, hash, taken).None? {
      forall off | 0 <= off < r.size && r.Usable(off) ensures r.base + off in taken {
        var k := ProbeOf(r, hash, off);
        assert !FreeAt(r, hash, k, taken);
      }
    } else {
      var k :| 0 <= k < r.size && FreeAt(r, hash, k, taken);
      var off := Offset(r, hash, k);
      assert 0 <= off < r.size && r.Usable(off) && r.base + off !in taken;
    }
  }

  // The probe that lands on an offset.
  lemma ProbeOf(r: Range, hash: nat, off: nat) returns (k: nat)
    requires r.Range? && r.Valid() && !r.six && off < r.size
    ensures k < r.size && Offset(r, hash, k) == off
  {
    var h := Start(hash, r.size);
    k := (off + r.size - h) % r.size;
    Wrap(h, r.size, off);
  }

  ghost predicate Injective(f: nat -> Addr, n: nat) {
    forall i, j :: 0 <= i < j < n ==> f(i) != f(j)
  }

  // n different addresses do not fit in a smaller set.
  lemma {:induction false} Pigeonhole(f: nat -> Addr, n: nat, s: set<Addr>)
    requires Injective(f, n) && forall i :: 0 <= i < n ==> f(i) in s
    ensures n <= |s|
  {
    if n > 0 {
      assert forall i :: 0 <= i < n - 1 ==> f(i) in s - {f(n - 1)};
      Pigeonhole(f, n - 1, s - {f(n - 1)});
    }
  }

  // The k-th address of the first 8192 that does not end in .0 or .255.
  function NthUsable(base: nat, k: nat): (r: Addr) {
    base + 256 * (k / 254) + 1 + k % 254
  }

  lemma LowByte(base: nat, q: nat, m: nat)
    requires base % MIN_RANGE == 0 && m < 254
    ensures (base + (256 * q + 1 + m)) % 256 == 1 + m
  {
    var b := base / MIN_RANGE;
    assert base + (256 * q + 1 + m) == 256 * (32 * b + q) + (1 + m);
  }

  lemma NthIsUsable(r: Range, k: nat)
    requires r.Range? && r.Valid() && !r.six && k < 8128
    ensures 0 <= NthUsable(r.base, k) - r.base < r.size && r.Usable(NthUsable(r.base, k) - r.base)
  {
    var q, m := k / 254, k % 254;
    LowByte(r.base, q, m);
    assert k == 254 * q + m && q < 32;
  }

  lemma NthDiffer(base: nat, i: nat, j: nat)
    requires i < j
    ensures NthUsable(base, i) != NthUsable(base, j)
  {
    var q, m, q', m' := i / 254, i % 254, j / 254, j % 254;
    assert i == 254 * q + m && j == 254 * q' + m';
  }

  // In IPv4 even the smallest range has 8128 usable addresses.
  lemma FreeIP4Found(r: Range, hash: nat, taken: set<Addr>)
    requires r.Range? && r.Valid() && !r.six && |taken| < 8128
    ensures FreeIP(r, hash, taken).Some?
  {
    FreeIP4FailsIffFull(r, hash, taken);
    if FreeIP(r, hash, taken).None? {
      var f: nat -> Addr := (k: nat) => NthUsable(r.base, k);
      forall k | 0 <= k < 8128 ensures f(k) in taken {
        NthIsUsable(r, k);
        assert r.base + (f(k) - r.base) in taken;
      }
      forall i, j | 0 <= i < j < 8128 ensures f(i) != f(j) {
        NthDiffer(r.base, i, j);
      }
      Pigeonhole(f, 8128, taken);
      assert false;
    }
  }

  // In IPv6 the |taken| + 3 probes hit |taken| + 3 different addresses, of which two are never handed
  // out and |taken| are taken: one is left.
  lemma FreeIP6Found(r: Range, hash: nat, taken: set<Addr>)
    requires r.Range? && r.Valid() && r.six && |taken| + 3 <= r.Span()
    ensures FreeIP(r, hash, taken).Some?
  {
    var n := |taken| + 3;
    FirstFreeExact(r, hash, 0, n, taken);
    if FreeIP(r, hash, taken).None? {
      var f: nat -> Addr := (i: nat) => r.base + Offset(r, hash, i);
      forall i, j | 0 <= i < j < n ensures f(i) != f(j) {
        OffsetsDiffer(r, hash, i, j);
      }
      var s := taken + {r.base, r.base + (r.Span() - 1)};
      forall i | 0 <= i < n ensures f(i) in s {
        assert !FreeAt(r, hash, i, taken);
      }
      Pigeonhole(f, n, s);
      assert false;
    }
  }

  lemma OffsetsDiffer(r: Range, hash: nat, i: nat, j: nat)
    requires r.Range? && r.Valid() && i < j < r.Span()
    ensures Offset(r, hash, i) != Offset(r, hash, j)
  {
    var s := r.Span();
    var h := Start(hash, s);
    ModOnce(h + i, s);
    ModOnce(h + j, s);
  }
}
