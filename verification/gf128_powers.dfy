/** Powers of the GHASH subkey, GHASH itself, and the subkey recovered from its doubled form. */
module GF128Powers {
  import opened GF128
  import opened GF128Bytes
  import opened Arithmetic

  // ---- Square and multiply ----

  // result * base^power stays the same when one bit of power is consumed.
  lemma SquareStep(result: Elem, base: Elem, power: nat)
    ensures power % 2 == 1 ==> Mul(Mul(result, base), Pow(Mul(base, base), power / 2)) == Mul(result, Pow(base, power))
    ensures power % 2 == 0 ==> Mul(result, Pow(Mul(base, base), power / 2)) == Mul(result, Pow(base, power))
  {
    hide Mul;
    var half := power / 2;
    PowOne(base);
    PowTwice(base, 1);
    PowMul(base, 2, half);
    assert Pow(Mul(base, base), half) == Pow(base, 2 * half);
    if power % 2 == 1 {
      PowAdd(base, 1, 2 * half);
      assert power == 1 + 2 * half;
      MulAssoc(result, base, Pow(base, 2 * half));
    }
  }

  // GF128HPower: any exponent.
  method GF128HPower(h: seq<bv8>, power: nat) returns (result: seq<bv8>)
    requires |h| == 16
    ensures |result| == 16 && ToElem(result) == Pow(ToElem(h), power)
  {
    hide Mul, ToElem, Pow;
    result := ONE_BLOCK;
    var base := h;
    var left := power;
    ToElemOne();
    MulOne(Pow(ToElem(h), power));
    while left > 0
      invariant |result| == |base| == 16
      invariant Mul(ToElem(result), Pow(ToElem(base), left)) == Pow(ToElem(h), power)
    {
      SquareStep(ToElem(result), ToElem(base), left);
      if left % 2 != 0 {
        result := GF128Mul(result, base);
      }
      base := GF128Mul(base, base);
      left := left / 2;
    }
    PowZero(ToElem(base));
    MulOne(ToElem(result));
  }

  lemma PowZero(h: Elem)
    ensures Pow(h, 0) == One()
  {
  }

  // ---- Eleven steps ----

  lemma Pow2Eleven()
    ensures Pow2(11) == 2048
  {
    assert Pow2(4) == 16 && Pow2(8) == 256;
  }

  lemma HalvesOf(p: nat, m: nat, q: nat, r: nat)
    requires m > 0 && p == m * q + r && r < m
    ensures p / (2 * m) == q / 2 && p % (2 * m) == r + (if q % 2 == 1 then m else 0)
  {
    var b := q % 2;
    assert m * q == m * (2 * (q / 2)) + m * b;
    assert m * (2 * (q / 2)) == (2 * m) * (q / 2);
    DivUnique(p, 2 * m, q / 2, m * b + r);
  }

  // Splitting an exponent at bit i.
  lemma LowBits(p: nat, i: nat)
    ensures p % Pow2(i + 1) == p % Pow2(i) + (if p / Pow2(i) % 2 == 1 then Pow2(i) else 0)
    ensures p / Pow2(i) / 2 == p / Pow2(i + 1)
  {
    assert Pow2(i + 1) == 2 * Pow2(i);
    HalvesOf(p, Pow2(i), p / Pow2(i), p % Pow2(i));
  }

  // One more bit of the exponent: base is h^(2^i).
  lemma PowerBit(h: Elem, p: nat, i: nat)
    ensures Pow(h, p % Pow2(i + 1)) ==
            if p / Pow2(i) % 2 == 1 then Mul(Pow(h, p % Pow2(i)), Pow(h, Pow2(i))) else Pow(h, p % Pow2(i))
  {
    hide Pow, Mul;
    LowBits(p, i);
    PowAdd(h, p % Pow2(i), Pow2(i));
  }

  // Once the exponent's bits run out, the rest change nothing.
  lemma {:induction false} NoBitsLeft(p: nat, i: nat, j: nat)
    requires i <= j && p / Pow2(i) == 0
    ensures p % Pow2(j) == p
    decreases j - i
  {
    var m := Pow2(i);
    assert p == m * (p / m) + p % m;
    if i < j {
      LowBits(p, i);
      NoBitsLeft(p, i + 1, j);
    }
  }

  // gf128_h_power: at most 11 squarings, so the exponent counts modulo 2048.
  method GF128HPower11(h: seq<bv8>, power: nat) returns (result: seq<bv8>)
    requires |h| == 16
    ensures |result| == 16 && ToElem(result) == Pow(ToElem(h), power % 2048)
  {
    hide Mul, ToElem, Pow;
    result := ONE_BLOCK;
    var base := h;
    var left := power;
    ToElemOne();
    PowZero(ToElem(h));
    PowOne(ToElem(h));
    Pow2Eleven();
    var i := 0;
    while i < 11 && left > 0
      invariant 0 <= i <= 11 && |result| == |base| == 16 && left == power / Pow2(i)
      invariant ToElem(base) == Pow(ToElem(h), Pow2(i))
      invariant ToElem(result) == Pow(ToElem(h), power % Pow2(i))
    {
      PowerBit(ToElem(h), power, i);
      LowBits(power, i);
      PowTwice(ToElem(h), Pow2(i));
      if left % 2 != 0 {
        result := GF128MulMasked(result, base);
      }
      base := GF128MulMasked(base, base);
      left := left / 2;
      i := i + 1;
    }
    if left == 0 {
      NoBitsLeft(power, i, i);
      NoBitsLeft(power, i, 11);
    }
  }

  // The table of h^(2^i).
  ghost predicate IsPowerTable(table: seq<seq<bv8>>, h: Elem) {
    && |table| == 11
    && forall i :: 0 <= i < 11 ==> |table[i]| == 16 && ToElem(table[i]) == Pow(h, Pow2(i))
  }

  method ComputeHPowerTable(h: seq<bv8>) returns (table: seq<seq<bv8>>)
    requires |h| == 16
    ensures IsPowerTable(table, ToElem(h))
  {
    hide Mul, ToElem, Pow;
    PowOne(ToElem(h));
    table := [h];
    for i := 1 to 11
      invariant |table| == i
      invariant forall k :: 0 <= k < i ==> |table[k]| == 16 && ToElem(table[k]) == Pow(ToElem(h), Pow2(k))
    {
      PowTwice(ToElem(h), Pow2(i - 1));
      var square := GF128Mul(table[i - 1], table[i - 1]);
      table := table + [square];
    }
  }

  // gf128_h_power_table, and h_power_step driven over bits 0..10: one product per set bit.
  method GF128HPowerTable(table: seq<seq<bv8>>, power: nat, ghost h: Elem) returns (result: seq<bv8>)
    requires IsPowerTable(table, h)
    ensures |result| == 16 && ToElem(result) == Pow(h, power % 2048)
  {
    hide Mul, ToElem, Pow;
    result := ONE_BLOCK;
    ToElemOne();
    PowZero(h);
    Pow2Eleven();
    var i := 0;
    while i < 11 && power > 0
      invariant 0 <= i <= 11 && |result| == 16
      invariant ToElem(result) == Pow(h, power % Pow2(i))
    {
      PowerBit(h, power, i);
      if power / Pow2(i) % 2 == 1 {
        result := GF128MulMasked(result, table[i]);
      }
      i := i + 1;
    }
  }

  // ---- GHASH ----

  // GHASH of a sequence of blocks (section 6.4 of NIST SP 800-38D).
  function Ghash(h: Elem, blocks: seq<Elem>): (r: Elem) {
    if blocks == [] then Zero()
    else Mul(Add(Ghash(h, blocks[..|blocks| - 1]), blocks[|blocks| - 1]), h)
  }

  function ToElems(blocks: seq<seq<bv8>>): (es: seq<Elem>)
    requires forall i :: 0 <= i < |blocks| ==> |blocks[i]| == 16
    ensures |es| == |blocks|
  {
    seq(|blocks|, i requires 0 <= i < |blocks| => ToElem(blocks[i]))
  }

  method GHASHCompute(h: seq<bv8>, blocks: seq<seq<bv8>>) returns (x: seq<bv8>)
    requires |h| == 16 && forall i :: 0 <= i < |blocks| ==> |blocks[i]| == 16
    ensures |x| == 16 && ToElem(x) == Ghash(ToElem(h), ToElems(blocks))
  {
    hide Mul, ToElem;
    x := ZERO_BLOCK;
    ToElemZero(x);
    var es := ToElems(blocks);
    for i := 0 to |blocks|
      invariant |x| == 16 && ToElem(x) == Ghash(ToElem(h), es[..i])
    {
      ToElemXor(x, blocks[i]);
      x := XorBytes(x, blocks[i]);
      x := GF128Mul(x, h);
      assert es[..i + 1][..i] == es[..i];
    }
    assert es[..|blocks|] == es;
  }

  function AddAll(a: seq<Elem>, b: seq<Elem>): (c: seq<Elem>)
    requires |a| == |b|
    ensures |c| == |a|
  {
    seq(|a|, i requires 0 <= i < |a| => Add(a[i], b[i]))
  }

  // GHASH is linear in its blocks: a change of the blocks changes it by the GHASH of the change.
  lemma {:induction false} GhashAdd(h: Elem, a: seq<Elem>, b: seq<Elem>)
    requires |a| == |b|
    ensures Ghash(h, AddAll(a, b)) == Add(Ghash(h, a), Ghash(h, b))
  {
    hide Mul, Add;
    var n := |a|;
    if n == 0 {
      AddZero(Zero());
    } else {
      var a', b' := a[..n - 1], b[..n - 1];
      assert AddAll(a, b)[..n - 1] == AddAll(a', b');
      GhashAdd(h, a', b');
      AddSwap(Ghash(h, a'), Ghash(h, b'), a[n - 1], b[n - 1]);
      MulAddLeft(Add(Ghash(h, a'), a[n - 1]), Add(Ghash(h, b'), b[n - 1]), h);
    }
  }

  function Zeros(n: nat): (z: seq<Elem>)
    ensures |z| == n
  {
    seq(n, _ => Zero())
  }

  lemma {:induction false} GhashZeros(h: Elem, n: nat)
    ensures Ghash(h, Zeros(n)) == Zero()
  {
    hide Mul, Add;
    if n > 0 {
      assert Zeros(n)[..n - 1] == Zeros(n - 1);
      GhashZeros(h, n - 1);
      AddZero(Zero());
      MulZero(h);
    }
  }

  // n blocks, all zero except block b.
  function Single(n: nat, b: nat, d: Elem): (s: seq<Elem>)
    requires b < n
    ensures |s| == n
  {
    Zeros(n)[b := d]
  }

  // A change of one block, b of n, moves GHASH by the change times h^(n - b).
  lemma {:induction false} GhashSingle(h: Elem, n: nat, b: nat, d: Elem)
    requires b < n
    ensures Ghash(h, Single(n, b, d)) == Mul(d, Pow(h, n - b))
  {
    hide Mul, Add;
    var s := Single(n, b, d);
    if b == n - 1 {
      assert s[..n - 1] == Zeros(n - 1);
      GhashZeros(h, n - 1);
      AddZero(d);
      PowOne(h);
    } else {
      assert s[..n - 1] == Single(n - 1, b, d);
      GhashSingle(h, n - 1, b, d);
      AddZero(Ghash(h, s[..n - 1]));
      MulAssoc(d, Pow(h, n - 1 - b), h);
    }
  }

  // Blocks in front of the changed ones do not matter to the change.
  lemma {:induction false} GhashZeroPrefix(h: Elem, k: nat, ds: seq<Elem>)
    ensures Ghash(h, Zeros(k) + ds) == Ghash(h, ds)
  {
    hide Mul, Add;
    var n := |ds|;
    if n == 0 {
      assert Zeros(k) + ds == Zeros(k);
      GhashZeros(h, k);
    } else {
      assert (Zeros(k) + ds)[..k + n - 1] == Zeros(k) + ds[..n - 1];
      GhashZeroPrefix(h, k, ds[..n - 1]);
    }
  }

  // The changes of n ciphertext blocks and of the length block behind them, which never changes.
  ghost function DeltaBlocks(changed: map<nat, seq<bv8>>, n: nat): (ds: seq<Elem>)
    requires forall b :: b in changed ==> |changed[b]| == 16
    ensures |ds| == n + 1
  {
    seq(n + 1, i requires 0 <= i < n + 1 => if i < n && i in changed then ToElem(changed[i]) else Zero())
  }

  lemma GhashDeltaInsert(h: Elem, changed: map<nat, seq<bv8>>, n: nat, b: nat, d: seq<bv8>)
    requires forall k :: k in changed ==> |changed[k]| == 16
    requires b < n && b !in changed && |d| == 16
    ensures Ghash(h, DeltaBlocks(changed[b := d], n))
         == Add(Ghash(h, DeltaBlocks(changed, n)), Mul(ToElem(d), Pow(h, n + 1 - b)))
  {
    hide Mul, ToElem;
    var ds := DeltaBlocks(changed, n);
    var s := Single(n + 1, b, ToElem(d));
    forall i | 0 <= i < n + 1 ensures AddAll(ds, s)[i] == DeltaBlocks(changed[b := d], n)[i] {
      AddZero(ds[i]);
      AddZero(s[i]);
    }
    assert AddAll(ds, s) == DeltaBlocks(changed[b := d], n);
    GhashAdd(h, ds, s);
    GhashSingle(h, n + 1, b, ToElem(d));
  }

  // GHASHIncrementalDelta: the changed blocks are visited in an arbitrary order.
  method GHASHIncrementalDelta(h: seq<bv8>, changed: map<nat, seq<bv8>>, total: nat) returns (delta: seq<bv8>)
    requires |h| == 16
    requires forall b :: b in changed ==> b < total && |changed[b]| == 16
    ensures |delta| == 16 && ToElem(delta) == Ghash(ToElem(h), DeltaBlocks(changed, total))
  {
    hide Mul, Add, ToElem;
    delta := ZERO_BLOCK;
    ToElemZero(delta);
    var todo := changed.Keys;
    ghost var visited: map<nat, seq<bv8>> := map[];
    assert DeltaBlocks(visited, total) == Zeros(total + 1);
    GhashZeros(ToElem(h), total + 1);
    while todo != {}
      invariant |delta| == 16 && todo <= changed.Keys
      invariant visited == map b | b in changed && b !in todo :: changed[b]
      invariant ToElem(delta) == Ghash(ToElem(h), DeltaBlocks(visited, total))
      decreases |todo|
    {
      var b :| b in todo;
      var hPow := GF128HPower(h, total + 1 - b);
      var contrib := GF128Mul(changed[b], hPow);
      ToElemXor(delta, contrib);
      delta := XorBytes(delta, contrib);
      GhashDeltaInsert(ToElem(h), visited, total, b, changed[b]);
      todo := todo - {b};
      visited := visited[b := changed[b]];
    }
    assert visited == changed;
  }

  // The incremental delta is the difference of the GHASH of the new and of the old blocks, whatever
  // precedes the ciphertext (the padded additional data).
  lemma IncrementalDelta(h: Elem, aad: seq<Elem>, before: seq<Elem>, after: seq<Elem>, len: Elem, ds: seq<Elem>)
    requires |before| == |after| && |ds| == |before| + 1 && ds[|before|] == Zero()
    requires forall i :: 0 <= i < |before| ==> after[i] == Add(before[i], ds[i])
    ensures Ghash(h, aad + after + [len]) == Add(Ghash(h, aad + before + [len]), Ghash(h, ds))
  {
    hide Mul;
    var n := |before|;
    var all := Zeros(|aad|) + ds;
    var old_ := aad + before + [len];
    forall i | 0 <= i < |old_| ensures AddAll(old_, all)[i] == (aad + after + [len])[i] {
      AddZero(old_[i]);
    }
    assert AddAll(old_, all) == aad + after + [len];
    GhashAdd(h, old_, all);
    GhashZeroPrefix(h, |aad|, ds);
  }
}
