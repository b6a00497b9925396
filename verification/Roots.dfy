/**
 * Evaluating remainders at roots of the generator of src/bech32.cpp, in any field whose elements act on
 * themselves by additive maps: a `Ring` is an addition together with the multiplication by one element.
 */
module Roots {
  import opened Limbs
  import opened BitXor
  import opened Checksum
  import opened Bech32

  ghost predicate UnitAt<G(!new)>(r: Ring<G>, a: G) {
    r.plus(a, r.zero) == a == r.plus(r.zero, a) && r.plus(a, a) == r.zero
  }

  ghost predicate AssocAt<G(!new)>(r: Ring<G>, a: G, b: G, c: G) {
    r.plus(r.plus(a, b), c) == r.plus(a, r.plus(b, c))
  }

  ghost predicate CommAt<G(!new)>(r: Ring<G>, a: G, b: G) { r.plus(a, b) == r.plus(b, a) }

  lemma MedialFrom<G(!new)>(r: Ring<G>, a: G, b: G, c: G, d: G)
    requires AssocAt(r, a, b, r.plus(c, d)) && AssocAt(r, b, c, d) && CommAt(r, b, c)
    requires AssocAt(r, c, b, d) && AssocAt(r, a, c, r.plus(b, d))
    ensures Medial(r, a, b, c, d)
  {
  }

  lemma AdditiveIntro<G(!new)>(r: Ring<G>)
    requires forall a, b, c :: AssocAt(r, a, b, c)
    requires forall a, b :: CommAt(r, a, b)
    requires forall a :: UnitAt(r, a)
    requires forall a, b :: LinearAt(r, a, b)
    requires r.timesX(r.zero) == r.zero
    ensures Additive(r)
  {
    forall a, b, c, d ensures Medial(r, a, b, c, d) { MedialFrom(r, a, b, c, d); }
    forall a ensures r.plus(a, r.zero) == a == r.plus(r.zero, a) && r.plus(a, a) == r.zero { assert UnitAt(r, a); }
  }

  // ---------------------------------------------------------------- powers

  /** Multiplication by the n-th power. */
  function Pow<G(!new)>(r: Ring<G>, n: nat, w: G): G {
    if n == 0 then w else r.timesX(Pow(r, n - 1, w))
  }

  lemma {:induction false} PowAdd<G(!new)>(r: Ring<G>, m: nat, n: nat, w: G)
    ensures Pow(r, m + n, w) == Pow(r, m, Pow(r, n, w))
  {
    if m > 0 { PowAdd(r, m - 1, n, w); }
  }

  lemma {:induction false} PowZero<G(!new)>(r: Ring<G>, n: nat)
    requires Additive(r)
    ensures Pow(r, n, r.zero) == r.zero
  {
    if n > 0 { PowZero(r, n - 1); }
  }

  lemma {:induction false} PowLinear<G(!new)>(r: Ring<G>, n: nat, x: G, y: G)
    requires Additive(r)
    ensures Pow(r, n, r.plus(x, y)) == r.plus(Pow(r, n, x), Pow(r, n, y))
  {
    if n > 0 {
      PowLinear(r, n - 1, x, y);
      assert LinearAt(r, Pow(r, n - 1, x), Pow(r, n - 1, y));
    }
  }

  ghost predicate NoKernel<G(!new)>(r: Ring<G>) {
    forall x {:trigger KernelAt(r, x)} :: KernelAt(r, x)
  }

  ghost predicate KernelAt<G(!new)>(r: Ring<G>, x: G) {
    r.timesX(x) == r.zero ==> x == r.zero
  }

  lemma {:induction false} PowKernel<G(!new)>(r: Ring<G>, n: nat, x: G)
    requires NoKernel(r) && Pow(r, n, x) == r.zero
    ensures x == r.zero
  {
    if n > 0 {
      assert KernelAt(r, Pow(r, n - 1, x));
      PowKernel(r, n - 1, x);
    }
  }

  /** Equal sums cancel. */
  lemma Cancel<G(!new)>(r: Ring<G>, x: G, y: G)
    requires Additive(r)
    ensures r.plus(x, y) == r.zero <==> x == y
  {
    if r.plus(x, y) == r.zero {
      assert Medial(r, x, y, r.zero, y);
      assert r.plus(r.plus(x, r.zero), r.plus(y, y)) == x;
    }
  }

  lemma PowInjective<G(!new)>(r: Ring<G>, n: nat, x: G, y: G)
    requires Additive(r) && NoKernel(r) && Pow(r, n, x) == Pow(r, n, y)
    ensures x == y
  {
    PowLinear(r, n, x, y);
    PowKernel(r, n, r.plus(x, y));
    Cancel(r, x, y);
  }

  // ---------------------------------------------------------------- orders

  lemma {:induction false} PowMultiple<G(!new)>(r: Ring<G>, k: nat, n: nat, y: G)
    requires Pow(r, n, y) == y
    ensures Pow(r, k * n, y) == y
  {
    if k > 0 {
      PowMultiple(r, k - 1, n, y);
      assert k * n == n + (k - 1) * n;
      PowAdd(r, n, (k - 1) * n, y);
    }
  }

  lemma PowDifference<G(!new)>(r: Ring<G>, m: nat, n: nat, y: G)
    requires Additive(r) && NoKernel(r) && m <= n && Pow(r, m, y) == y && Pow(r, n, y) == y
    ensures Pow(r, n - m, y) == y
  {
    PowAdd(r, m, n - m, y);
    PowInjective(r, m, Pow(r, n - m, y), y);
  }

  /** What two powers leave alone, the power of their greatest common divisor does. */
  lemma {:induction false} PowGcd<G(!new)>(r: Ring<G>, m: nat, n: nat, y: G) returns (g: nat, p: nat, q: nat)
    requires Additive(r) && NoKernel(r) && 0 < m && 0 < n && Pow(r, m, y) == y && Pow(r, n, y) == y
    ensures 0 < g && m == p * g && n == q * g && Pow(r, g, y) == y
    decreases m + n
  {
    if m == n {
      g, p, q := m, 1, 1;
    } else if m < n {
      PowDifference(r, m, n, y);
      g, p, q := PowGcd(r, m, n - m, y);
      assert n == (p + q) * g;
      q := p + q;
    } else {
      PowDifference(r, n, m, y);
      g, p, q := PowGcd(r, m - n, n, y);
      assert m == (p + q) * g;
      p := p + q;
    }
  }

  /** The element has order 1023, and no smaller power of it fixes anything but zero. */
  ghost predicate Order1023<G(!new)>(r: Ring<G>) {
    forall y {:trigger OrderAt(r, y)} :: OrderAt(r, y)
  }

  ghost predicate OrderAt<G(!new)>(r: Ring<G>, y: G) {
    Pow(r, 1023, y) == y && (Pow(r, 33, y) == y || Pow(r, 93, y) == y || Pow(r, 341, y) == y ==> y == r.zero)
  }

  /** A proper divisor of 1023 divides 33, 93 or 341. */
  lemma ProperDivisor(q: nat, g: nat) returns (k: nat)
    requires q * g == 1023 && 1 < q
    ensures k * g == 33 || k * g == 93 || k * g == 341
  {
    if q <= 31 {
      k := 1;
      SmallFactor(q, g);
    } else {
      if g > 31 { LargeFactors(q, g); }
      SmallFactor(g, q);
      k := if g == 31 then 3 else if g == 11 then 3 else if g == 3 then 11 else 33;
    }
  }

  lemma LargeFactors(q: nat, g: nat)
    requires q > 31 && g > 31
    ensures q * g > 1023
  {
    MulLe(32, q, g);
  }

  lemma SmallFactor(q: nat, g: nat)
    requires q * g == 1023 && q <= 31
    ensures (q == 1 && g == 1023) || (q == 3 && g == 341) || (q == 11 && g == 93) || (q == 31 && g == 33)
  {
    assert q == 0 || q == 1 || q == 2 || q == 3 || q == 4 || q == 5 || q == 6 || q == 7 || q == 8 || q == 9 || q == 10
        || q == 11 || q == 12 || q == 13 || q == 14 || q == 15 || q == 16 || q == 17 || q == 18 || q == 19 || q == 20
        || q == 21 || q == 22 || q == 23 || q == 24 || q == 25 || q == 26 || q == 27 || q == 28 || q == 29 || q == 30
        || q == 31;
  }

  lemma NoFixedPoint<G(!new)>(r: Ring<G>, n: nat, y: G)
    requires Additive(r) && NoKernel(r) && Order1023(r) && 0 < n < 1023 && Pow(r, n, y) == y
    ensures y == r.zero
  {
    assert OrderAt(r, y);
    var g, p, q := PowGcd(r, n, 1023, y);
    MulLe(1, p, g);
    var k := ProperDivisor(q, g);
    PowMultiple(r, k, g, y);
  }

  // ---------------------------------------------------------------- sums of powers

  /** Multiplication by the sum of the powers that the bits tell. */
  function Comb<G(!new)>(r: Ring<G>, bits: seq<bool>, w: G): G {
    if bits == [] then r.zero else r.plus(if bits[0] then w else r.zero, r.timesX(Comb(r, bits[1..], w)))
  }

  lemma {:induction false} CombLinear<G(!new)>(r: Ring<G>, bits: seq<bool>, x: G, y: G)
    requires Additive(r)
    ensures Comb(r, bits, r.plus(x, y)) == r.plus(Comb(r, bits, x), Comb(r, bits, y))
  {
    if bits != [] {
      CombLinear(r, bits[1..], x, y);
      var p, q := Comb(r, bits[1..], x), Comb(r, bits[1..], y);
      assert LinearAt(r, p, q);
      var z := r.zero;
      assert Medial(r, if bits[0] then x else z, if bits[0] then y else z, r.timesX(p), r.timesX(q));
    }
  }

  lemma {:induction false} CombZero<G(!new)>(r: Ring<G>, bits: seq<bool>)
    requires Additive(r)
    ensures Comb(r, bits, r.zero) == r.zero
  {
    if bits != [] { CombZero(r, bits[1..]); }
  }

  lemma {:induction false} CombTimesX<G(!new)>(r: Ring<G>, bits: seq<bool>, w: G)
    requires Additive(r)
    ensures Comb(r, bits, r.timesX(w)) == r.timesX(Comb(r, bits, w))
  {
    if bits != [] {
      CombTimesX(r, bits[1..], w);
      var x, y := if bits[0] then w else r.zero, r.timesX(Comb(r, bits[1..], w));
      assert LinearAt(r, x, y);
    }
  }

  lemma {:induction false} CombPow<G(!new)>(r: Ring<G>, bits: seq<bool>, n: nat, w: G)
    requires Additive(r)
    ensures Comb(r, bits, Pow(r, n, w)) == Pow(r, n, Comb(r, bits, w))
  {
    if n > 0 {
      CombPow(r, bits, n - 1, w);
      CombTimesX(r, bits, Pow(r, n - 1, w));
    }
  }

  lemma {:induction false} CombComb<G(!new)>(r: Ring<G>, a: seq<bool>, b: seq<bool>, w: G)
    requires Additive(r)
    ensures Comb(r, a, Comb(r, b, w)) == Comb(r, b, Comb(r, a, w))
  {
    if a == [] {
      CombZero(r, b);
    } else {
      CombComb(r, a[1..], b, w);
      CombTimesX(r, b, Comb(r, a[1..], w));
      CombZero(r, b);
      CombLinear(r, b, if a[0] then w else r.zero, r.timesX(Comb(r, a[1..], w)));
    }
  }

  lemma CombAt<G(!new)>(r: Ring<G>, bits: seq<bool>, i: nat, w: G)
    requires i < |bits|
    ensures Comb(r, bits[i..], w) == r.plus(if bits[i] then w else r.zero, r.timesX(Comb(r, bits[i + 1..], w)))
  {
    assert bits[i..][1..] == bits[i + 1..];
  }

  /** Ten bits, written out. */
  function Product<G(!new)>(r: Ring<G>, b: seq<bool>, w: G): G
    requires |b| == 10
  {
    var f, g, z := r.plus, r.timesX, r.zero;
    f(if b[0] then w else z, g(f(if b[1] then w else z, g(f(if b[2] then w else z, g(f(if b[3] then w else z,
    g(f(if b[4] then w else z, g(f(if b[5] then w else z, g(f(if b[6] then w else z, g(f(if b[7] then w else z,
    g(f(if b[8] then w else z, g(f(if b[9] then w else z, g(z))))))))))))))))))))
  }

  lemma CombIsProduct<G(!new)>(r: Ring<G>, b: seq<bool>, w: G)
    requires |b| == 10
    ensures Comb(r, b, w) == Product(r, b, w)
  {
    assert b[0..] == b && b[10..] == [];
    CombAt(r, b, 9, w);
    CombAt(r, b, 8, w);
    CombAt(r, b, 7, w);
    CombAt(r, b, 6, w);
    CombAt(r, b, 5, w);
    CombAt(r, b, 4, w);
    CombAt(r, b, 3, w);
    CombAt(r, b, 2, w);
    CombAt(r, b, 1, w);
    CombAt(r, b, 0, w);
  }

  /** Every element is a sum of powers, and code tells of which. */
  ghost predicate Coded<G(!new)>(r: Ring<G>, one: G, code: G -> seq<bool>) {
    forall y {:trigger code(y)} :: Comb(r, code(y), one) == y
  }

  /** What two powers are, their product is. */
  lemma PowProduct<G(!new)>(r: Ring<G>, one: G, code: G -> seq<bool>, m: nat, n: nat, a: G, b: G)
    requires Additive(r) && Coded(r, one, code) && Pow(r, m, one) == a && Pow(r, n, one) == b
    ensures Pow(r, m + n, one) == Comb(r, code(a), b)
  {
    PowAdd(r, n, m, one);
    assert Comb(r, code(a), one) == a;
    CombPow(r, code(a), n, one);
  }

  lemma PowIdentity<G(!new)>(r: Ring<G>, one: G, code: G -> seq<bool>, n: nat, y: G)
    requires Additive(r) && Coded(r, one, code) && Pow(r, n, one) == one
    ensures Pow(r, n, y) == y
  {
    assert Comb(r, code(y), one) == y;
    CombPow(r, code(y), n, one);
  }

  /** Where e^n - 1 has an inverse, e^n fixes nothing but zero. */
  lemma PowFixes<G(!new)>(r: Ring<G>, one: G, code: G -> seq<bool>, n: nat, k: G, inverse: seq<bool>, y: G)
    requires Additive(r) && Coded(r, one, code) && Pow(r, n, one) == k
    requires Comb(r, inverse, r.plus(k, one)) == one && Pow(r, n, y) == y
    ensures y == r.zero
  {
    var c := code(y);
    assert Comb(r, c, one) == y;
    CombPow(r, c, n, one);
    CombLinear(r, c, k, one);
    CombComb(r, inverse, c, r.plus(k, one));
    CombZero(r, inverse);
  }

  /** An element with an inverse takes nothing but zero to zero. */
  lemma CombKernel<G(!new)>(r: Ring<G>, one: G, code: G -> seq<bool>, bits: seq<bool>, inverse: seq<bool>, x: G)
    requires Additive(r) && Coded(r, one, code) && Comb(r, inverse, Comb(r, bits, one)) == one && Comb(r, bits, x) == r.zero
    ensures x == r.zero
  {
    var c := code(x);
    assert Comb(r, c, one) == x;
    CombComb(r, bits, c, one);
    CombComb(r, inverse, c, Comb(r, bits, one));
    CombZero(r, inverse);
  }

  /** Powers of e on the way to 33, 93, 341 and 1023, and the inverses of the first three less one. */
  datatype Ladder<G> = Ladder(e1: G, e2: G, e4: G, e5: G, e8: G, e16: G, e21: G, e32: G, e33: G, e64: G, e85: G,
                              e93: G, e128: G, e256: G, e341: G, e682: G, i33: G, i93: G, i341: G)

  ghost predicate Climbs<G(!new)>(r: Ring<G>, one: G, code: G -> seq<bool>, l: Ladder<G>) {
    && r.timesX(one) == l.e1
    && Comb(r, code(l.e1), l.e1) == l.e2 && Comb(r, code(l.e2), l.e2) == l.e4 && Comb(r, code(l.e4), l.e1) == l.e5
    && Comb(r, code(l.e4), l.e4) == l.e8 && Comb(r, code(l.e8), l.e8) == l.e16 && Comb(r, code(l.e16), l.e5) == l.e21
    && Comb(r, code(l.e16), l.e16) == l.e32 && Comb(r, code(l.e32), l.e1) == l.e33
    && Comb(r, code(l.e32), l.e32) == l.e64 && Comb(r, code(l.e64), l.e21) == l.e85
    && Comb(r, code(l.e85), l.e8) == l.e93 && Comb(r, code(l.e64), l.e64) == l.e128
    && Comb(r, code(l.e128), l.e128) == l.e256 && Comb(r, code(l.e256), l.e85) == l.e341
    && Comb(r, code(l.e341), l.e341) == l.e682 && Comb(r, code(l.e682), l.e341) == one
  }

  ghost predicate Inverts<G(!new)>(r: Ring<G>, one: G, code: G -> seq<bool>, l: Ladder<G>) {
    && Comb(r, code(l.i33), r.plus(l.e33, one)) == one
    && Comb(r, code(l.i93), r.plus(l.e93, one)) == one
    && Comb(r, code(l.i341), r.plus(l.e341, one)) == one
  }

  lemma Climb<G(!new)>(r: Ring<G>, one: G, code: G -> seq<bool>, l: Ladder<G>)
    requires Additive(r) && Coded(r, one, code) && Climbs(r, one, code, l)
    ensures Pow(r, 33, one) == l.e33 && Pow(r, 93, one) == l.e93 && Pow(r, 341, one) == l.e341 && Pow(r, 1023, one) == one
  {
    assert Pow(r, 1, one) == r.timesX(Pow(r, 0, one));
    PowProduct(r, one, code, 1, 1, l.e1, l.e1);
    PowProduct(r, one, code, 2, 2, l.e2, l.e2);
    PowProduct(r, one, code, 4, 1, l.e4, l.e1);
    PowProduct(r, one, code, 4, 4, l.e4, l.e4);
    PowProduct(r, one, code, 8, 8, l.e8, l.e8);
    PowProduct(r, one, code, 16, 5, l.e16, l.e5);
    PowProduct(r, one, code, 16, 16, l.e16, l.e16);
    PowProduct(r, one, code, 32, 1, l.e32, l.e1);
    PowProduct(r, one, code, 32, 32, l.e32, l.e32);
    PowProduct(r, one, code, 64, 21, l.e64, l.e21);
    PowProduct(r, one, code, 85, 8, l.e85, l.e8);
    PowProduct(r, one, code, 64, 64, l.e64, l.e64);
    PowProduct(r, one, code, 128, 128, l.e128, l.e128);
    PowProduct(r, one, code, 256, 85, l.e256, l.e85);
    PowProduct(r, one, code, 341, 341, l.e341, l.e341);
    PowProduct(r, one, code, 682, 341, l.e682, l.e341);
  }

  lemma LadderOrder<G(!new)>(r: Ring<G>, one: G, code: G -> seq<bool>, l: Ladder<G>)
    requires Additive(r) && Coded(r, one, code) && Climbs(r, one, code, l) && Inverts(r, one, code, l)
    ensures Order1023(r)
  {
    Climb(r, one, code, l);
    forall y ensures OrderAt(r, y) {
      PowIdentity(r, one, code, 1023, y);
      if Pow(r, 33, y) == y { PowFixes(r, one, code, 33, l.e33, code(l.i33), y); }
      if Pow(r, 93, y) == y { PowFixes(r, one, code, 93, l.e93, code(l.i93), y); }
      if Pow(r, 341, y) == y { PowFixes(r, one, code, 341, l.e341, code(l.i341), y); }
    }
  }

  /** r multiplies by a sum of powers of e, and then m times by e. */
  ghost predicate Scaled<G(!new)>(e: Ring<G>, bits: seq<bool>, m: nat, r: Ring<G>) {
    r.plus == e.plus && r.zero == e.zero && forall w {:trigger ScaledAt(e, bits, m, r, w)} :: ScaledAt(e, bits, m, r, w)
  }

  ghost predicate ScaledAt<G(!new)>(e: Ring<G>, bits: seq<bool>, m: nat, r: Ring<G>, w: G) {
    r.timesX(w) == Pow(e, m, Comb(e, bits, w))
  }

  lemma Scale<G(!new)>(e: Ring<G>, bits: seq<bool>, m: nat) returns (r: Ring<G>)
    ensures Scaled(e, bits, m, r)
  {
    r := Ring(e.plus, w => Pow(e, m, Comb(e, bits, w)), e.zero);
  }

  lemma ScaledKernel<G(!new)>(e: Ring<G>, one: G, code: G -> seq<bool>, bits: seq<bool>, inverse: seq<bool>, r: Ring<G>)
    requires Additive(e) && Coded(e, one, code) && Comb(e, inverse, Comb(e, bits, one)) == one && Scaled(e, bits, 0, r)
    ensures NoKernel(r)
  {
    forall x ensures KernelAt(r, x) {
      assert ScaledAt(e, bits, 0, r, x);
      if r.timesX(x) == r.zero { CombKernel(e, one, code, bits, inverse, x); }
    }
  }

  lemma ScaledAdditive<G(!new)>(e: Ring<G>, bits: seq<bool>, m: nat, r: Ring<G>)
    requires Additive(e) && Scaled(e, bits, m, r)
    ensures Additive(r)
  {
    forall a, b, c, d ensures Medial(r, a, b, c, d) { assert Medial(e, a, b, c, d); }
    forall a, b ensures LinearAt(r, a, b) {
      CombLinear(e, bits, a, b);
      PowLinear(e, m, Comb(e, bits, a), Comb(e, bits, b));
      assert ScaledAt(e, bits, m, r, a) && ScaledAt(e, bits, m, r, b) && ScaledAt(e, bits, m, r, r.plus(a, b));
    }
    CombZero(e, bits);
    PowZero(e, m);
    assert ScaledAt(e, bits, m, r, r.zero);
  }

  lemma ScaledNext<G(!new)>(e: Ring<G>, bits: seq<bool>, m: nat, b: Ring<G>, be: Ring<G>)
    requires Additive(e) && Scaled(e, bits, m, b) && Scaled(e, bits, m + 1, be)
    ensures NextPower(e, b, be)
  {
    forall w ensures NextAt(e, b, be, w) {
      CombTimesX(e, bits, w);
      PowAdd(e, m, 1, Comb(e, bits, w));
      PowAdd(e, 1, m, Comb(e, bits, w));
      assert ScaledAt(e, bits, m, b, w) && ScaledAt(e, bits, m, b, e.timesX(w)) && ScaledAt(e, bits, m + 1, be, w);
    }
  }

  /** 1 + e^2 + e^3. */
  predicate Thirteen(bits: seq<bool>) { |bits| == 4 && bits[0] && !bits[1] && bits[2] && bits[3] }

  lemma CombThirteen<G(!new)>(e: Ring<G>, bits: seq<bool>, w: G)
    requires Additive(e) && Thirteen(bits)
    ensures Comb(e, bits, w) == e.plus(w, e.timesX(e.timesX(e.plus(w, e.timesX(w)))))
  {
    assert bits[0..] == bits && bits[4..] == [];
    CombAt(e, bits, 3, w);
    CombAt(e, bits, 2, w);
    CombAt(e, bits, 1, w);
    CombAt(e, bits, 0, w);
  }

  lemma FirstPowers<G(!new)>(e: Ring<G>, v: G)
    ensures Pow(e, 0, v) == v && Pow(e, 1, v) == e.timesX(v) && Pow(e, 2, v) == e.timesX(e.timesX(v))
  {
    assert Pow(e, 1, v) == e.timesX(Pow(e, 0, v));
    assert Pow(e, 2, v) == e.timesX(Pow(e, 1, v));
  }

  // ---------------------------------------------------------------- symbols in the field

  /** The element that the first n bits of s stand for, given what each bit does. */
  function Embedding<G(!new)>(r: Ring<G>, basis: nat -> G, s: nat, n: nat): G {
    if n == 0 then r.zero else r.plus(Embedding(r, basis, s, n - 1), if HasBit(s, n - 1) then basis(n - 1) else r.zero)
  }

  lemma BitSum<G(!new)>(r: Ring<G>, x: G, y: G, d: G, a: bool, b: bool)
    requires Additive(r)
    ensures r.plus(r.plus(x, if a then d else r.zero), r.plus(y, if b then d else r.zero))
         == r.plus(r.plus(x, y), if a != b then d else r.zero)
  {
    assert Medial(r, x, y, if a then d else r.zero, if b then d else r.zero);
  }

  lemma {:induction false} EmbeddingLinear<G(!new)>(r: Ring<G>, basis: nat -> G, x: nat, y: nat, n: nat)
    requires Additive(r)
    ensures Embedding(r, basis, Xor(x, y), n) == r.plus(Embedding(r, basis, x, n), Embedding(r, basis, y, n))
  {
    if n > 0 {
      EmbeddingLinear(r, basis, x, y, n - 1);
      BitLinear(x, y, n - 1);
      BitSum(r, Embedding(r, basis, x, n - 1), Embedding(r, basis, y, n - 1), basis(n - 1), HasBit(x, n - 1), HasBit(y, n - 1));
    }
  }

  lemma {:induction false} EmbeddingZero<G(!new)>(r: Ring<G>, basis: nat -> G, n: nat)
    requires Additive(r)
    ensures Embedding(r, basis, 0, n) == r.zero
  {
    if n > 0 {
      EmbeddingZero(r, basis, n - 1);
      ModIs(0, 0, Pow2(n - 1), 0);
    }
  }

  lemma EmbeddingFive<G(!new)>(r: Ring<G>, basis: nat -> G, s: nat)
    ensures var f, z := r.plus, r.zero;
            Embedding(r, basis, s, 5)
            == f(f(f(f(f(z, if HasBit(s, 0) then basis(0) else z), if HasBit(s, 1) then basis(1) else z),
                     if HasBit(s, 2) then basis(2) else z), if HasBit(s, 3) then basis(3) else z),
                 if HasBit(s, 4) then basis(4) else z)
  {
    assert Embedding(r, basis, s, 1) == r.plus(Embedding(r, basis, s, 0), if HasBit(s, 0) then basis(0) else r.zero);
    assert Embedding(r, basis, s, 2) == r.plus(Embedding(r, basis, s, 1), if HasBit(s, 1) then basis(1) else r.zero);
    assert Embedding(r, basis, s, 3) == r.plus(Embedding(r, basis, s, 2), if HasBit(s, 2) then basis(2) else r.zero);
    assert Embedding(r, basis, s, 4) == r.plus(Embedding(r, basis, s, 3), if HasBit(s, 3) then basis(3) else r.zero);
  }

  lemma PointLawful<G(!new)>(p: Point<G>, e: Ring<G>, basis: nat -> G)
    requires Additive(e) && Additive(p.r) && p.r.plus == e.plus && p.r.zero == e.zero
    requires forall s :: p.iota(s) == Embedding(e, basis, s, 5)
    ensures Lawful(p)
  {
    EmbeddingZero(e, basis, 5);
    forall x, y ensures IotaAt(p, x, y) { EmbeddingLinear(e, basis, x, y, 5); }
  }

  // ---------------------------------------------------------------- evaluation at a point

  /** A field element to evaluate at, and the embedding of the symbols. */
  datatype Point<!G(!new)> = Point(r: Ring<G>, iota: nat -> G)

  ghost predicate Lawful<G(!new)>(p: Point<G>) {
    && Additive(p.r) && p.iota(0) == p.r.zero
    && forall x, y {:trigger IotaAt(p, x, y)} :: IotaAt(p, x, y)
  }

  ghost predicate IotaAt<G(!new)>(p: Point<G>, x: nat, y: nat) {
    p.iota(Xor(x, y)) == p.r.plus(p.iota(x), p.iota(y))
  }

  /** The polynomial whose n coefficients are the symbols of c, at the point. */
  function Eval<G(!new)>(p: Point<G>, c: nat, n: nat): G {
    if n == 0 then p.r.zero else p.r.plus(p.iota(c % 32), p.r.timesX(Eval(p, c / 32, n - 1)))
  }

  lemma {:induction false} EvalLinear<G(!new)>(p: Point<G>, c: nat, d: nat, n: nat)
    requires Lawful(p)
    ensures Eval(p, Xor(c, d), n) == p.r.plus(Eval(p, c, n), Eval(p, d, n))
  {
    if n > 0 {
      Powers();
      XorDiv(c, d, 5);
      XorMod(c, d, 5);
      EvalLinear(p, c / 32, d / 32, n - 1);
      assert IotaAt(p, c % 32, d % 32);
      var x, y := Eval(p, c / 32, n - 1), Eval(p, d / 32, n - 1);
      assert LinearAt(p.r, x, y);
      assert Medial(p.r, p.iota(c % 32), p.iota(d % 32), p.r.timesX(x), p.r.timesX(y));
    }
  }

  lemma {:induction false} EvalZero<G(!new)>(p: Point<G>, n: nat)
    requires Lawful(p)
    ensures Eval(p, 0, n) == p.r.zero
  {
    if n > 0 { EvalZero(p, n - 1); }
  }

  lemma EvalSymbol<G(!new)>(p: Point<G>, s: nat)
    requires Lawful(p) && s < 32
    ensures Eval(p, s, 6) == p.iota(s)
  {
    EvalZero(p, 5);
    assert s / 32 == 0 && s % 32 == s;
    assert Eval(p, s, 6) == p.r.plus(p.iota(s), p.r.timesX(Eval(p, 0, 5)));
  }

  lemma EvalShift<G(!new)>(p: Point<G>, c: nat, n: nat)
    requires Lawful(p)
    ensures Eval(p, c * 32, n + 1) == p.r.timesX(Eval(p, c, n))
  {
  }

  function Six(s0: nat, s1: nat, s2: nat, s3: nat, s4: nat, s5: nat): nat {
    ((((s5 * 32 + s4) * 32 + s3) * 32 + s2) * 32 + s1) * 32 + s0
  }

  lemma EvalStep<G(!new)>(p: Point<G>, c: nat, s: nat, n: nat)
    requires s < 32
    ensures Eval(p, c * 32 + s, n + 1) == p.r.plus(p.iota(s), p.r.timesX(Eval(p, c, n)))
  {
    assert (c * 32 + s) % 32 == s && (c * 32 + s) / 32 == c;
  }

  /** Six coefficients, from the lowest, at the element that g multiplies by. */
  function Horner<G(!new)>(f: (G, G) -> G, g: G -> G, z: G, a0: G, a1: G, a2: G, a3: G, a4: G, a5: G): G {
    f(a0, g(f(a1, g(f(a2, g(f(a3, g(f(a4, g(f(a5, g(z))))))))))))
  }

  ghost predicate SameAt<G(!new)>(g: G -> G, h: G -> G, w: G) { g(w) == h(w) }

  ghost predicate Same<G(!new)>(g: G -> G, h: G -> G) { forall w {:trigger SameAt(g, h, w)} :: SameAt(g, h, w) }

  lemma HornerSame<G(!new)>(f: (G, G) -> G, g: G -> G, h: G -> G, z: G, a0: G, a1: G, a2: G, a3: G, a4: G, a5: G)
    requires Same(g, h)
    ensures Horner(f, g, z, a0, a1, a2, a3, a4, a5) == Horner(f, h, z, a0, a1, a2, a3, a4, a5)
  {
    assert SameAt(g, h, z);
    var w5 := f(a5, g(z));
    assert SameAt(g, h, w5);
    var w4 := f(a4, g(w5));
    assert SameAt(g, h, w4);
    var w3 := f(a3, g(w4));
    assert SameAt(g, h, w3);
    var w2 := f(a2, g(w3));
    assert SameAt(g, h, w2);
    assert SameAt(g, h, f(a1, g(w2)));
  }

  lemma SixSame<G(!new)>(g: G -> G, h: G -> G, b: G)
    requires Same(g, h)
    ensures g(g(g(g(g(g(b)))))) == h(h(h(h(h(h(b))))))
  {
    assert SameAt(g, h, b);
    assert SameAt(g, h, g(b));
    assert SameAt(g, h, g(g(b)));
    assert SameAt(g, h, g(g(g(b))));
    assert SameAt(g, h, g(g(g(g(b)))));
    assert SameAt(g, h, g(g(g(g(g(b))))));
  }

  lemma EvalSix<G(!new)>(p: Point<G>, s0: nat, s1: nat, s2: nat, s3: nat, s4: nat, s5: nat)
    requires s0 < 32 && s1 < 32 && s2 < 32 && s3 < 32 && s4 < 32 && s5 < 32
    ensures Eval(p, Six(s0, s1, s2, s3, s4, s5), 6)
         == Horner(p.r.plus, p.r.timesX, p.r.zero, p.iota(s0), p.iota(s1), p.iota(s2), p.iota(s3), p.iota(s4), p.iota(s5))
  {
    var c3 := (s5 * 32 + s4) * 32 + s3;
    EvalThree(p, s0, s1, s2, c3, 3);
    EvalThree(p, s3, s4, s5, 0, 0);
  }

  lemma EvalThree<G(!new)>(p: Point<G>, s0: nat, s1: nat, s2: nat, c: nat, n: nat)
    requires s0 < 32 && s1 < 32 && s2 < 32
    ensures var f, g := p.r.plus, p.r.timesX;
            Eval(p, ((c * 32 + s2) * 32 + s1) * 32 + s0, n + 3)
            == f(p.iota(s0), g(f(p.iota(s1), g(f(p.iota(s2), g(Eval(p, c, n)))))))
  {
    EvalStep(p, c, s2, n);
    EvalStep(p, c * 32 + s2, s1, n + 1);
    EvalStep(p, (c * 32 + s2) * 32 + s1, s0, n + 2);
  }

  lemma PowSix<G(!new)>(r: Ring<G>, w: G)
    ensures Pow(r, 6, w) == r.timesX(r.timesX(r.timesX(r.timesX(r.timesX(r.timesX(w))))))
  {
    PowAdd(r, 3, 3, w);
    PowThree(r, w);
    PowThree(r, Pow(r, 3, w));
  }

  lemma PowThree<G(!new)>(r: Ring<G>, w: G)
    ensures Pow(r, 3, w) == r.timesX(r.timesX(r.timesX(w)))
  {
    assert Pow(r, 1, w) == r.timesX(Pow(r, 0, w));
    assert Pow(r, 2, w) == r.timesX(Pow(r, 1, w));
  }

  /** A coefficient of zero in front changes nothing. */
  lemma {:induction false} EvalShort<G(!new)>(p: Point<G>, c: nat, n: nat)
    requires Lawful(p) && c < Pow2(5 * n)
    ensures Eval(p, c, n + 1) == Eval(p, c, n)
  {
    if n == 0 {
      EvalZero(p, 1);
    } else {
      Powers();
      Pow2Add(5, 5 * (n - 1));
      EvalShort(p, c / 32, n - 1);
    }
  }

  lemma Times32(s: nat, a: nat, b: nat)
    requires b == 32 * a
    ensures s * b == s * a * 32
  {
  }

  lemma {:induction false} EvalTop<G(!new)>(p: Point<G>, s: nat, n: nat)
    requires Lawful(p) && s < 32
    ensures Eval(p, s * Pow2(5 * n), n + 1) == Pow(p.r, n, p.iota(s))
  {
    if n == 0 {
      EvalZero(p, 0);
      assert Eval(p, s, 1) == p.r.plus(p.iota(s), p.r.timesX(Eval(p, 0, 0)));
    } else {
      Powers();
      Pow2Add(5, 5 * (n - 1));
      EvalTop(p, s, n - 1);
      Times32(s, Pow2(5 * (n - 1)), Pow2(5 * n));
      EvalShift(p, s * Pow2(5 * (n - 1)), n);
    }
  }

  /** The point is a root of the generator: x^6 and its multiples, reduced, have the value they had. */
  ghost predicate IsRoot<G(!new)>(p: Point<G>) {
    forall n {:trigger RootAt(p, n)} :: 0 <= n < 5 ==> RootAt(p, n)
  }

  ghost predicate RootAt<G(!new)>(p: Point<G>, n: nat)
    requires n < 5
  {
    Eval(p, Multiple(n), 6) == Pow(p.r, 6, p.iota(Pow2(n)))
  }

  /** One multiple of the generator at a point, its symbols and their images given from the lowest. */
  lemma RootValue<G(!new)>(p: Point<G>, n: nat, g: G -> G, s: seq<nat>, a: seq<G>, b: G)
    requires n < 5 && |s| == 6 && |a| == 6 && Symbols(s) && Multiple(n) == Six(s[0], s[1], s[2], s[3], s[4], s[5])
    requires forall i :: 0 <= i < 6 ==> p.iota(s[i]) == a[i]
    requires p.iota(Pow2(n)) == b && Same(p.r.timesX, g)
    requires Horner(p.r.plus, g, p.r.zero, a[0], a[1], a[2], a[3], a[4], a[5]) == g(g(g(g(g(g(b))))))
    ensures RootAt(p, n)
  {
    EvalSix(p, s[0], s[1], s[2], s[3], s[4], s[5]);
    HornerSame(p.r.plus, p.r.timesX, g, p.r.zero, a[0], a[1], a[2], a[3], a[4], a[5]);
    PowSix(p.r, b);
    SixSame(p.r.timesX, g, b);
  }

  /** The symbol made of the first n bits of s. */
  function FirstBits(s: nat, n: nat): nat {
    if n == 0 then 0 else Xor(FirstBits(s, n - 1), if HasBit(s, n - 1) then Pow2(n - 1) else 0)
  }

  lemma {:induction false} FirstBitsAre(s: nat, n: nat)
    ensures FirstBits(s, n) == s % Pow2(n)
  {
    if n > 0 {
      var k := n - 1;
      FirstBitsAre(s, k);
      LowBits(s, k);
      NextFirstBit(s, k, s % Pow2(k));
    }
  }

  lemma NextFirstBit(s: nat, k: nat, low: nat)
    requires FirstBits(s, k) == low < Pow2(k)
    ensures FirstBits(s, k + 1) == (if HasBit(s, k) then Pow2(k) else 0) + low
  {
    BitOnTop(low, HasBit(s, k), k);
  }

  lemma BitOnTop(low: nat, on: bool, k: nat)
    requires low < Pow2(k)
    ensures var bit := if on then Pow2(k) else 0; Xor(low, bit) == bit + low
  {
    if on {
      XorDisjoint(1, low, k);
      XorComm(low, Pow2(k));
    } else {
      XorZero(low);
    }
  }

  lemma LowBits(s: nat, k: nat)
    ensures 0 <= s % Pow2(k) < Pow2(k)
    ensures s % Pow2(k + 1) == (if HasBit(s, k) then Pow2(k) else 0) + s % Pow2(k)
  {
    var p := Pow2(k);
    var q, r := s / p, s % p;
    DivMod(s, p);
    var h, e := q / 2, q % 2;
    assert q * p == h * (2 * p) + e * p by { assert q == 2 * h + e; }
    ModIs(e * p + r, h, 2 * p, s);
  }

  /** Each bit that falls off comes back with the value it had. */
  lemma {:induction false} EvalShifted<G(!new)>(p: Point<G>, c: nat, n: nat)
    requires Lawful(p) && IsRoot(p) && n <= 5
    ensures Eval(p, Shifted(c, n), 6)
         == p.r.plus(Eval(p, c % 0x200_0000 * 32, 6), Pow(p.r, 6, p.iota(FirstBits(c / 0x200_0000, n))))
  {
    var top := c / 0x200_0000;
    if n == 0 {
      PowZero(p.r, 6);
    } else {
      var k := n - 1;
      EvalShifted(p, c, k);
      EvalLinear(p, Shifted(c, k), Term(c, k), 6);
      var bit := if HasBit(top, k) then Pow2(k) else 0;
      assert Eval(p, Term(c, k), 6) == Pow(p.r, 6, p.iota(bit)) by {
        TopBit25(c, k);
        assert RootAt(p, k);
        EvalZero(p, 6);
        PowZero(p.r, 6);
      }
      assert IotaAt(p, FirstBits(top, k), bit);
      PowLinear(p.r, 6, p.iota(FirstBits(top, k)), p.iota(bit));
      PlusAssoc(p.r, Eval(p, c % 0x200_0000 * 32, 6), Pow(p.r, 6, p.iota(FirstBits(top, k))), Pow(p.r, 6, p.iota(bit)));
    }
  }

  lemma TopBit25(c: nat, k: nat)
    ensures HasBit(c, 25 + k) <==> HasBit(c / 0x200_0000, k)
  {
    Powers();
    DivTwice(c, 25, k);
  }

  lemma {:induction false} DivTwice(c: nat, m: nat, k: nat)
    ensures 0 <= c / Pow2(m) && c / Pow2(m + k) == c / Pow2(m) / Pow2(k)
  {
    DivMod(c, Pow2(m));
    if k > 0 {
      DivTwice(c, m, k - 1);
      NextBit(c, m + k - 1);
      NextBit(c / Pow2(m), k - 1);
    }
  }

  lemma PlusAssoc<G(!new)>(r: Ring<G>, a: G, b: G, c: G)
    requires Additive(r)
    ensures r.plus(r.plus(a, b), c) == r.plus(a, r.plus(b, c))
  {
    assert Medial(r, a, b, r.zero, c);
  }

  lemma EvalSplit<G(!new)>(p: Point<G>, low: nat, top: nat, n: nat, high: nat)
    requires Lawful(p) && low < Pow2(5 * n) && top < 32 && high == top * Pow2(5 * n)
    ensures Eval(p, Xor(high, low), n + 1) == p.r.plus(Pow(p.r, n, p.iota(top)), Eval(p, low, n))
  {
    EvalLinear(p, high, low, n + 1);
    EvalTop(p, top, n);
    EvalShort(p, low, n);
  }

  lemma AllBits(s: nat, n: nat)
    requires s < Pow2(n)
    ensures FirstBits(s, n) == s
  {
    FirstBitsAre(s, n);
    ModIs(s, 0, Pow2(n), s);
  }

  lemma EvalFed<G(!new)>(p: Point<G>, c: nat, low: nat, top: nat)
    requires Lawful(p) && IsRoot(p) && top < 32 && low == c % 0x200_0000 && top == c / 0x200_0000
    ensures Eval(p, TimesX(c), 6) == p.r.plus(p.r.timesX(Eval(p, low, 5)), Pow(p.r, 6, p.iota(top)))
  {
    EvalShifted(p, c, 5);
    Powers();
    AllBits(top, 5);
    EvalShift(p, low, 5);
  }

  lemma Rejoined(c: nat)
    requires c < 0x4000_0000
    ensures var low, top := c % 0x200_0000, c / 0x200_0000;
            0 <= low < 0x200_0000 && 0 <= top < 32 && Xor(top * 0x200_0000, low) == c
  {
    Powers();
    XorDisjoint(c / 0x200_0000, c % 0x200_0000, 25);
  }

  /** Multiplying a remainder by x multiplies its value by the root. */
  lemma EvalTimesX<G(!new)>(p: Point<G>, c: nat)
    requires Lawful(p) && IsRoot(p) && c < 0x4000_0000
    ensures Eval(p, TimesX(c), 6) == p.r.timesX(Eval(p, c, 6))
  {
    var low, top := c % 0x200_0000, c / 0x200_0000;
    Rejoined(c);
    EvalFed(p, c, low, top);
    Powers();
    EvalSplit(p, low, top, 5, top * 0x200_0000);
    TimesSum(p.r, Pow(p.r, 5, p.iota(top)), Eval(p, low, 5));
  }

  lemma TimesSum<G(!new)>(r: Ring<G>, a: G, b: G)
    requires Additive(r)
    ensures r.timesX(r.plus(a, b)) == r.plus(r.timesX(b), r.timesX(a))
  {
    assert LinearAt(r, a, b);
    PlusComm(r, r.timesX(a), r.timesX(b));
  }

  lemma PlusComm<G(!new)>(r: Ring<G>, a: G, b: G)
    requires Additive(r)
    ensures r.plus(a, b) == r.plus(b, a)
  {
    assert Medial(r, r.zero, a, b, r.zero);
  }

  lemma {:induction false} EvalPow<G(!new)>(p: Point<G>, n: nat, c: nat)
    requires Lawful(p) && IsRoot(p) && c < 0x4000_0000
    ensures Pow(Gf(), n, c) < 0x4000_0000
    ensures Eval(p, Pow(Gf(), n, c), 6) == Pow(p.r, n, Eval(p, c, 6))
  {
    if n > 0 {
      EvalPow(p, n - 1, c);
      ShiftedBound(Pow(Gf(), n - 1, c), 5);
      EvalTimesX(p, Pow(Gf(), n - 1, c));
    }
  }

  // ---------------------------------------------------------------- three terms

  /** Three symbols at distances m and n, and their value at a root. */
  function Three(m: nat, n: nat, a: nat, b: nat, c: nat): nat {
    Xor(Pow(Gf(), n, Xor(Pow(Gf(), m, a), b)), c)
  }

  lemma {:induction false} FeedPow<G(!new)>(r: Ring<G>, c: G, n: nat)
    requires Additive(r)
    ensures Feed(r, c, Zeros(r, n)) == Pow(r, n, c)
  {
    if n > 0 {
      assert Zeros(r, n)[..n - 1] == Zeros(r, n - 1);
      FeedPow(r, c, n - 1);
    }
  }

  lemma FeedGap<G(!new)>(r: Ring<G>, a: G, n: nat, b: G)
    requires Additive(r) && n > 0
    ensures Feed(r, a, Zeros(r, n - 1) + [b]) == r.plus(Pow(r, n, a), b)
  {
    var v := Zeros(r, n - 1) + [b];
    assert v[..|v| - 1] == Zeros(r, n - 1);
    FeedPow(r, a, n - 1);
  }

  /** Three symbols with zeros between them, as the loop over the symbols sees them. */
  lemma FeedThree<G(!new)>(r: Ring<G>, m: nat, n: nat, a: G, b: G, c: G)
    requires Additive(r) && m > 0 && n > 0
    ensures Feed(r, r.zero, [a] + (Zeros(r, m - 1) + [b]) + (Zeros(r, n - 1) + [c]))
         == r.plus(Pow(r, n, r.plus(Pow(r, m, a), b)), c)
  {
    var x, y, z := [a], Zeros(r, m - 1) + [b], Zeros(r, n - 1) + [c];
    FeedConcat(r, r.zero, x + y, z);
    FeedConcat(r, r.zero, x, y);
    assert Feed(r, r.zero, x) == r.plus(r.timesX(Feed(r, r.zero, [])), a) == a;
    FeedGap(r, a, m, b);
    FeedGap(r, r.plus(Pow(r, m, a), b), n, c);
  }

  lemma ThreeAt<G(!new)>(p: Point<G>, m: nat, n: nat, a: nat, b: nat, c: nat)
    requires Lawful(p) && IsRoot(p) && a < 32 && b < 32 && c < 32
    ensures Eval(p, Three(m, n, a, b, c), 6)
         == p.r.plus(p.r.plus(Pow(p.r, m + n, p.iota(a)), Pow(p.r, n, p.iota(b))), p.iota(c))
  {
    EvalSymbol(p, a);
    EvalSymbol(p, b);
    EvalSymbol(p, c);
    EvalPow(p, m, a);
    var x := Pow(Gf(), m, a);
    EvalLinear(p, x, b, 6);
    Powers();
    XorBound(x, b, 30);
    EvalPow(p, n, Xor(x, b));
    EvalLinear(p, Pow(Gf(), n, Xor(x, b)), c, 6);
    PowLinear(p.r, n, Pow(p.r, m, p.iota(a)), p.iota(b));
    PowAdd(p.r, n, m, p.iota(a));
  }

  /** The multiplication by e commutes with the multiplication by b, and the second ring multiplies by both. */
  ghost predicate NextPower<G(!new)>(e: Ring<G>, b: Ring<G>, be: Ring<G>) {
    && e.plus == b.plus == be.plus && e.zero == b.zero == be.zero
    && forall w {:trigger NextAt(e, b, be, w)} :: NextAt(e, b, be, w)
  }

  ghost predicate NextAt<G(!new)>(e: Ring<G>, b: Ring<G>, be: Ring<G>, w: G) {
    be.timesX(w) == e.timesX(b.timesX(w)) && b.timesX(e.timesX(w)) == e.timesX(b.timesX(w))
  }

  lemma {:induction false} CommutePow<G(!new)>(e: Ring<G>, b: Ring<G>, be: Ring<G>, n: nat, w: G)
    requires NextPower(e, b, be)
    ensures b.timesX(Pow(e, n, w)) == Pow(e, n, b.timesX(w))
  {
    if n > 0 {
      CommutePow(e, b, be, n - 1, w);
      assert NextAt(e, b, be, Pow(e, n - 1, w));
    }
  }

  lemma {:induction false} NextPow<G(!new)>(e: Ring<G>, b: Ring<G>, be: Ring<G>, n: nat, w: G)
    requires NextPower(e, b, be)
    ensures Pow(be, n, w) == Pow(e, n, Pow(b, n, w))
  {
    if n > 0 {
      NextPow(e, b, be, n - 1, w);
      CommutePow(e, b, be, n - 1, Pow(b, n - 1, w));
      assert NextAt(e, b, be, Pow(be, n - 1, w));
    }
  }

  lemma TwoPows<G(!new)>(e: Ring<G>, p: Ring<G>, q: Ring<G>, s: Ring<G>, n: nat, w: G)
    requires NextPower(e, p, q) && NextPower(e, q, s)
    ensures Pow(q, n, w) == Pow(e, n, Pow(p, n, w))
    ensures Pow(s, n, w) == Pow(e, n, Pow(e, n, Pow(p, n, w)))
  {
    NextPow(e, p, q, n, w);
    NextPow(e, q, s, n, w);
  }

  lemma Exchange<G(!new)>(r: Ring<G>, a: G, b: G, c: G, d: G, w: G)
    requires Additive(r) && r.plus(r.plus(a, b), w) == r.zero && r.plus(r.plus(c, d), w) == r.zero
    ensures r.plus(a, c) == r.plus(b, d)
  {
    Cancel(r, r.plus(a, b), w);
    Cancel(r, r.plus(c, d), w);
    assert Medial(r, a, b, c, d);
    assert r.plus(w, w) == r.zero;
    Cancel(r, r.plus(a, c), r.plus(b, d));
  }

  /** Three terms that sum to zero with weights 1, e^i and e^2i are zero: a Vandermonde argument. */
  lemma Vandermonde<G(!new)>(e: Ring<G>, m: nat, n: nat, u: G, v: G, w: G)
    requires Additive(e) && NoKernel(e) && Order1023(e) && 0 < n && 0 < m && m + n < 1023
    requires e.plus(e.plus(u, v), w) == e.zero
    requires e.plus(e.plus(Pow(e, m + n, u), Pow(e, n, v)), w) == e.zero
    requires e.plus(e.plus(Pow(e, m + n, Pow(e, m + n, u)), Pow(e, n, Pow(e, n, v))), w) == e.zero
    ensures u == v == w == e.zero
  {
    var u', v' := Pow(e, m + n, u), Pow(e, n, v);
    Exchange(e, u, v, u', v', w);
    Exchange(e, u', v', Pow(e, m + n, u'), Pow(e, n, v'), w);
    var x := e.plus(u, u');
    PowLinear(e, m + n, u, u');
    PowLinear(e, n, v, v');
    assert Pow(e, m + n, x) == Pow(e, n, x);
    PowAdd(e, n, m, x);
    PowInjective(e, n, Pow(e, m, x), x);
    NoFixedPoint(e, m, x);
    Cancel(e, u, u');
    Cancel(e, v, v');
    NoFixedPoint(e, m + n, u);
    NoFixedPoint(e, n, v);
  }

  lemma ThreeZero<G(!new)>(p: Point<G>, m: nat, n: nat, a: nat, b: nat, c: nat)
    requires Lawful(p) && IsRoot(p) && a < 32 && b < 32 && c < 32 && Three(m, n, a, b, c) == 0
    ensures p.r.plus(p.r.plus(Pow(p.r, m + n, p.iota(a)), Pow(p.r, n, p.iota(b))), p.iota(c)) == p.r.zero
  {
    ThreeAt(p, m, n, a, b, c);
    EvalZero(p, 6);
  }

  /** Three symbols within 1023 positions do not cancel if the generator has roots b, b e and b e^2. */
  lemma ThreeVanish<G(!new)>(e: Ring<G>, p: Point<G>, q: Point<G>, s: Point<G>, m: nat, n: nat, a: nat, b: nat, c: nat)
    requires Additive(e) && NoKernel(e) && Order1023(e) && NoKernel(p.r)
    requires Lawful(p) && IsRoot(p) && Lawful(q) && IsRoot(q) && Lawful(s) && IsRoot(s)
    requires NextPower(e, p.r, q.r) && NextPower(e, q.r, s.r) && p.iota == q.iota == s.iota
    requires 0 < m && 0 < n && m + n < 1023 && a < 32 && b < 32 && c < 32 && Three(m, n, a, b, c) == 0
    ensures p.iota(a) == p.iota(b) == p.iota(c) == e.zero
  {
    ThreeZero(p, m, n, a, b, c);
    ThreeZero(q, m, n, a, b, c);
    ThreeZero(s, m, n, a, b, c);
    ThreeWeighted(e, p.r, q.r, s.r, m, n, p.iota(a), p.iota(b), p.iota(c));
  }

  /** A point whose multiplication is scaled and where the generator vanishes. */
  ghost predicate RootPoint<G(!new)>(e: Ring<G>, iota: nat -> G, bits: seq<bool>, m: nat, r: Ring<G>) {
    Scaled(e, bits, m, r) && Lawful(Point(r, iota)) && IsRoot(Point(r, iota))
  }

  lemma NextTwo<G(!new)>(e: Ring<G>, bits: seq<bool>, p: Ring<G>, q: Ring<G>, s: Ring<G>)
    requires Additive(e) && Scaled(e, bits, 0, p) && Scaled(e, bits, 1, q) && Scaled(e, bits, 2, s)
    ensures NextPower(e, p, q) && NextPower(e, q, s)
  {
    ScaledNext(e, bits, 0, p, q);
    ScaledNext(e, bits, 1, q, s);
  }

  lemma ThreePoints<G(!new)>(e: Ring<G>, iota: nat -> G, bits: seq<bool>, p: Ring<G>, q: Ring<G>, s: Ring<G>,
                             m: nat, n: nat, a: nat, b: nat, c: nat)
    requires Additive(e) && NoKernel(e) && Order1023(e) && NoKernel(p)
    requires RootPoint(e, iota, bits, 0, p) && RootPoint(e, iota, bits, 1, q) && RootPoint(e, iota, bits, 2, s)
    requires 0 < m && 0 < n && m + n < 1023 && a < 32 && b < 32 && c < 32 && Three(m, n, a, b, c) == 0
    ensures iota(a) == iota(b) == iota(c) == e.zero
  {
    NextTwo(e, bits, p, q, s);
    ThreeVanish(e, Point(p, iota), Point(q, iota), Point(s, iota), m, n, a, b, c);
  }

  lemma ThreeWeighted<G(!new)>(e: Ring<G>, p: Ring<G>, q: Ring<G>, s: Ring<G>, m: nat, n: nat, x: G, y: G, z: G)
    requires Additive(e) && NoKernel(e) && Order1023(e) && NoKernel(p) && 0 < m && 0 < n && m + n < 1023
    requires NextPower(e, p, q) && NextPower(e, q, s)
    requires e.plus(e.plus(Pow(p, m + n, x), Pow(p, n, y)), z) == e.zero
    requires e.plus(e.plus(Pow(q, m + n, x), Pow(q, n, y)), z) == e.zero
    requires e.plus(e.plus(Pow(s, m + n, x), Pow(s, n, y)), z) == e.zero
    ensures x == y == z == e.zero
  {
    TwoPows(e, p, q, s, m + n, x);
    TwoPows(e, p, q, s, n, y);
    WeightedKernel(e, p, m, n, x, y, z);
  }

  lemma WeightedKernel<G(!new)>(e: Ring<G>, p: Ring<G>, m: nat, n: nat, x: G, y: G, z: G)
    requires Additive(e) && NoKernel(e) && Order1023(e) && NoKernel(p) && p.zero == e.zero && 0 < m && 0 < n && m + n < 1023
    requires var u, v := Pow(p, m + n, x), Pow(p, n, y);
             && e.plus(e.plus(u, v), z) == e.zero
             && e.plus(e.plus(Pow(e, m + n, u), Pow(e, n, v)), z) == e.zero
             && e.plus(e.plus(Pow(e, m + n, Pow(e, m + n, u)), Pow(e, n, Pow(e, n, v))), z) == e.zero
    ensures x == y == z == e.zero
  {
    Vandermonde(e, m, n, Pow(p, m + n, x), Pow(p, n, y), z);
    PowKernel(p, m + n, x);
    PowKernel(p, n, y);
  }
}
