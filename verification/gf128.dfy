/** The field GF(2^128) in the bit convention of GHASH (section 6.3 of NIST SP 800-38D).

    An element is its 128 coefficients, the coefficient of x^i at index i. On the wire that is bit i
    of the 16-byte block, counted from the most significant bit of byte 0. */
module GF128 {

  type Elem = e: seq<bool> | |e| == 128 witness seq(128, _ => false)

  function Zero(): (r: Elem) {
    seq(128, _ => false)
  }

  // The polynomial x^k. One is the multiplicative identity, the block 0x80 || 0^120.
  function Monomial(k: nat): (r: Elem) {
    seq(128, i => i == k)
  }

  function One(): (r: Elem) {
    Monomial(0)
  }

  function Add(a: Elem, b: Elem): (r: Elem) {
    seq(128, i requires 0 <= i < 128 => a[i] != b[i])
  }

  // The coefficients of R = 0xe1 || 0^120, which is x^128 reduced: 1 + x + x^2 + x^7.
  predicate InR(i: int) {
    i == 0 || i == 1 || i == 2 || i == 7
  }

  // Multiplication by x: a one-bit right shift that folds the bit shifted out back in as R.
  function MulX(v: Elem): (r: Elem) {
    seq(128, i requires 0 <= i < 128 => (i > 0 && v[i - 1]) != (v[127] && InR(i)))
  }

  function Scale(bit: bool, v: Elem): (r: Elem) {
    if bit then v else Zero()
  }

  // The sum of v * x^k over the k whose bit is set.
  function Combine(bits: seq<bool>, v: Elem): (r: Elem) {
    if bits == [] then Zero() else Add(Scale(bits[0], v), Combine(bits[1..], MulX(v)))
  }

  function Mul(a: Elem, b: Elem): (r: Elem) {
    Combine(a, b)
  }

  function Pow(h: Elem, n: nat): (r: Elem) {
    if n == 0 then One() else Mul(Pow(h, n - 1), h)
  }

  // ---- Addition is XOR ----

  lemma AddZero(a: Elem)
    ensures Add(a, Zero()) == a && Add(Zero(), a) == a && Add(a, a) == Zero()
  {
  }

  lemma AddComm(a: Elem, b: Elem)
    ensures Add(a, b) == Add(b, a)
  {
  }

  lemma AddAssoc(a: Elem, b: Elem, c: Elem)
    ensures Add(Add(a, b), c) == Add(a, Add(b, c))
  {
  }

  // Sums of four rearrange.
  lemma AddSwap(a: Elem, b: Elem, c: Elem, d: Elem)
    ensures Add(Add(a, b), Add(c, d)) == Add(Add(a, c), Add(b, d))
  {
  }

  lemma MulXAdd(a: Elem, b: Elem)
    ensures MulX(Add(a, b)) == Add(MulX(a), MulX(b))
  {
  }

  lemma MulXZero()
    ensures MulX(Zero()) == Zero()
  {
  }

  // ---- The product as a sum of shifts ----

  lemma {:induction false} CombineAdd(bits: seq<bool>, u: Elem, v: Elem)
    ensures Combine(bits, Add(u, v)) == Add(Combine(bits, u), Combine(bits, v))
  {
    AddZero(Zero());
    if bits != [] {
      MulXAdd(u, v);
      CombineAdd(bits[1..], MulX(u), MulX(v));
      AddSwap(Scale(bits[0], u), Scale(bits[0], v), Combine(bits[1..], MulX(u)), Combine(bits[1..], MulX(v)));
    }
  }

  lemma {:induction false} CombineMulX(bits: seq<bool>, v: Elem)
    ensures Combine(bits, MulX(v)) == MulX(Combine(bits, v))
  {
    MulXZero();
    if bits != [] {
      CombineMulX(bits[1..], MulX(v));
      MulXAdd(Scale(bits[0], v), Combine(bits[1..], MulX(v)));
    }
  }

  // Reading a's coefficients off one by one rebuilds a: the monomials are a basis.
  lemma {:induction false} CombineMonomials(a: Elem, i: nat)
    requires i <= 128
    ensures Combine(a[i..], Monomial(i)) == seq(128, k requires 0 <= k < 128 => k >= i && a[k])
    decreases 128 - i
  {
    if i < 128 {
      assert a[i..][1..] == a[i + 1..];
      CombineMonomials(a, i + 1);
      if i < 127 {
        assert MulX(Monomial(i)) == Monomial(i + 1);
      } else {
        assert a[i + 1..] == [];
      }
    }
  }

  lemma MulOneRight(a: Elem)
    ensures Mul(a, One()) == a
  {
    CombineMonomials(a, 0);
    assert a[0..] == a;
  }

  ghost predicate Additive(f: Elem -> Elem) {
    forall u, v :: f(Add(u, v)) == Add(f(u), f(v))
  }

  ghost predicate CommutesWithX(f: Elem -> Elem) {
    forall v :: f(MulX(v)) == MulX(f(v))
  }

  lemma {:induction false} MapCombine(f: Elem -> Elem, bits: seq<bool>, v: Elem)
    requires Additive(f) && CommutesWithX(f)
    ensures f(Combine(bits, v)) == Combine(bits, f(v))
  {
    assert f(Zero()) == Zero() by {
      AddZero(Zero());
      assert f(Add(Zero(), Zero())) == Add(f(Zero()), f(Zero()));
      AddZero(f(Zero()));
    }
    if bits != [] {
      MapCombine(f, bits[1..], MulX(v));
      var t, u := Scale(bits[0], v), Combine(bits[1..], MulX(v));
      assert f(Add(t, u)) == Add(f(t), f(u));
    }
  }

  // An additive map that commutes with multiplication by x is multiplication by its value at 1.
  // Commutativity and associativity of the product are two instances of this.
  lemma DeterminedByOne(f: Elem -> Elem, a: Elem)
    requires Additive(f) && CommutesWithX(f)
    ensures f(a) == Mul(a, f(One()))
  {
    MulOneRight(a);
    MapCombine(f, a, One());
  }

  // ---- The product is a commutative, associative, bilinear product with identity One ----

  lemma MulOne(a: Elem)
    ensures Mul(a, One()) == a && Mul(One(), a) == a
  {
    MulOneRight(a);
    MulComm(a, One());
  }

  lemma MulComm(a: Elem, b: Elem)
    ensures Mul(a, b) == Mul(b, a)
  {
    hide Combine;
    var f := (v: Elem) => Mul(b, v);
    forall u, v ensures f(Add(u, v)) == Add(f(u), f(v)) {
      CombineAdd(b, u, v);
    }
    forall v ensures f(MulX(v)) == MulX(f(v)) {
      CombineMulX(b, v);
    }
    DeterminedByOne(f, a);
    MulOneRight(b);
  }

  lemma MulAssoc(a: Elem, b: Elem, c: Elem)
    ensures Mul(Mul(a, b), c) == Mul(a, Mul(b, c))
  {
    hide Combine;
    var f := (v: Elem) => Mul(a, Mul(b, v));
    forall u, v ensures f(Add(u, v)) == Add(f(u), f(v)) {
      CombineAdd(b, u, v);
      CombineAdd(a, Mul(b, u), Mul(b, v));
    }
    forall v ensures f(MulX(v)) == MulX(f(v)) {
      CombineMulX(b, v);
      CombineMulX(a, Mul(b, v));
    }
    DeterminedByOne(f, c);
    MulOne(b);
    MulComm(c, Mul(a, b));
  }

  lemma MulAddRight(a: Elem, b: Elem, c: Elem)
    ensures Mul(a, Add(b, c)) == Add(Mul(a, b), Mul(a, c))
  {
    CombineAdd(a, b, c);
  }

  lemma MulAddLeft(a: Elem, b: Elem, c: Elem)
    ensures Mul(Add(a, b), c) == Add(Mul(a, c), Mul(b, c))
  {
    MulComm(Add(a, b), c);
    MulAddRight(c, a, b);
    MulComm(c, a);
    MulComm(c, b);
  }

  lemma MulZero(a: Elem)
    ensures Mul(Zero(), a) == Zero() && Mul(a, Zero()) == Zero()
  {
    MulAddLeft(Zero(), Zero(), a);
    AddZero(Zero());
    AddZero(Mul(Zero(), a));
    MulComm(a, Zero());
  }

  // Multiplication by x is multiplication by the polynomial x.
  lemma MulXIsMul(v: Elem)
    ensures MulX(v) == Mul(Monomial(1), v)
  {
    MulOne(v);
    CombineMulX(v, One());
    assert MulX(One()) == Monomial(1);
    MulComm(v, Monomial(1));
  }

  lemma {:induction false} MonomialIsPow(k: nat)
    requires k < 128
    ensures Monomial(k) == Pow(Monomial(1), k)
  {
    if k > 0 {
      MonomialIsPow(k - 1);
      assert MulX(Monomial(k - 1)) == Monomial(k);
      MulXIsMul(Monomial(k - 1));
      MulComm(Monomial(1), Monomial(k - 1));
    }
  }

  // The reduction polynomial: x * x^127 = 1 + x + x^2 + x^7. With the ring laws above and the
  // powers of x as a basis, this makes the product that of GF(2)[x] modulo x^128 + x^7 + x^2 + x + 1.
  lemma ReductionPolynomial()
    ensures Mul(Monomial(1), Monomial(127)) == Add(Add(One(), Monomial(1)), Add(Monomial(2), Monomial(7)))
  {
    hide Mul;
    var last := 127;
    MulXIsMul(Monomial(last));
    var sum := Add(Add(One(), Monomial(1)), Add(Monomial(2), Monomial(7)));
    assert forall i :: 0 <= i < 128 ==> sum[i] == InR(i);
    assert MulX(Monomial(last)) == sum;
  }

  // ---- Powers ----

  lemma {:induction false} PowAdd(h: Elem, m: nat, n: nat)
    ensures Pow(h, m + n) == Mul(Pow(h, m), Pow(h, n))
  {
    if n == 0 {
      MulOne(Pow(h, m));
    } else {
      PowAdd(h, m, n - 1);
      MulAssoc(Pow(h, m), Pow(h, n - 1), h);
    }
  }

  lemma {:induction false} PowMul(h: Elem, m: nat, n: nat)
    ensures Pow(h, m * n) == Pow(Pow(h, m), n)
  {
    if n > 0 {
      PowMul(h, m, n - 1);
      assert m * n == m * (n - 1) + m;
      PowAdd(h, m * (n - 1), m);
    }
  }

  lemma PowOne(h: Elem)
    ensures Pow(h, 1) == h
  {
    MulOne(h);
    assert Pow(h, 1) == Mul(Pow(h, 0), h);
  }

  lemma PowTwice(h: Elem, n: nat)
    ensures Pow(h, 2 * n) == Mul(Pow(h, n), Pow(h, n))
  {
    PowAdd(h, n, n);
  }
}
