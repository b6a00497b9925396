/**
 * Three errors within 1023 symbols never cancel in the checksum of src/bech32.cpp: its generator has the roots b, b e
 * and b e^2 in the field of 1024 elements, where e has order 1023.
 */
module Bch {
  import opened Limbs
  import opened Checksum
  import opened Bech32
  import opened Roots
  import opened Field1024

  // ---------------------------------------------------------------- the field as a ring

  function Plus(x: bv10, y: bv10): bv10 { x ^ y }

  /** Addition and the multiplication by e. */
  function E(): Ring<bv10> { Ring(Plus, TimesE, 0) }

  lemma EAssoc(a: bv10, b: bv10, c: bv10)
    ensures AssocAt(E(), a, b, c)
  {
    SumAssoc(a, b, c);
  }

  lemma EComm(a: bv10, b: bv10)
    ensures CommAt(E(), a, b)
  {
    SumComm(a, b);
  }

  lemma EUnit(a: bv10)
    ensures UnitAt(E(), a)
  {
    SumZero(a);
  }

  lemma ELinear(a: bv10, b: bv10)
    ensures LinearAt(E(), a, b)
  {
    LinearE(a, b);
  }

  lemma EKernel(a: bv10)
    ensures KernelAt(E(), a)
  {
    KernelE(a);
  }

  lemma EZero()
    ensures E().timesX(E().zero) == E().zero
  {
    KernelE(0);
  }

  lemma ELaws()
    ensures Additive(E()) && NoKernel(E())
  {
    forall a, b, c ensures AssocAt(E(), a, b, c) { EAssoc(a, b, c); }
    forall a, b ensures CommAt(E(), a, b) { EComm(a, b); }
    forall a ensures UnitAt(E(), a) { EUnit(a); }
    forall a, b ensures LinearAt(E(), a, b) { ELinear(a, b); }
    forall a ensures KernelAt(E(), a) { EKernel(a); }
    EZero();
    AdditiveIntro(E());
  }

  function Odd(k: bv10): bool { k & 1 != 0 }

  function Half(k: bv10): bv10 { k >> 1 }

  function FiveBits(k: bv10): seq<bool> {
    [Odd(k), Odd(Half(k)), Odd(Half(Half(k))), Odd(Half(Half(Half(k)))), Odd(Half(Half(Half(Half(k)))))]
  }

  function Upper(k: bv10): bv10 { Half(Half(Half(Half(Half(k))))) }

  /** The bits, lowest first. */
  function Code(k: bv10): seq<bool> {
    var k1 := Half(k);
    var k2 := Half(k1);
    var k3 := Half(k2);
    var k4 := Half(k3);
    var k5 := Half(k4);
    var k6 := Half(k5);
    var k7 := Half(k6);
    var k8 := Half(k7);
    var k9 := Half(k8);
    [Odd(k), Odd(k1), Odd(k2), Odd(k3), Odd(k4), Odd(k5), Odd(k6), Odd(k7), Odd(k8), Odd(k9)]
  }

  lemma CodeStep(k: bv10, rest: seq<bool>)
    requires Comb(E(), rest, 1) == Half(k)
    ensures Comb(E(), [Odd(k)] + rest, 1) == k
  {
    var all := [Odd(k)] + rest;
    assert all[0..] == all && all[1..] == rest;
    CombAt(E(), all, 0, 1);
    HalvesE(k);
  }

  lemma HalvesE(k: bv10)
    ensures E().plus(if Odd(k) then 1 else E().zero, E().timesX(Half(k))) == k
  {
    LowBitAndRest(k);
  }

  lemma FiveSteps(k: bv10, rest: seq<bool>)
    requires Comb(E(), rest, 1) == Upper(k)
    ensures Comb(E(), FiveBits(k) + rest, 1) == k
  {
    var k1 := Half(k);
    var k2 := Half(k1);
    var k3 := Half(k2);
    var k4 := Half(k3);
    var s4 := [Odd(k4)] + rest;
    var s3 := [Odd(k3)] + s4;
    var s2 := [Odd(k2)] + s3;
    var s1 := [Odd(k1)] + s2;
    CodeStep(k4, rest);
    CodeStep(k3, s4);
    CodeStep(k2, s3);
    CodeStep(k1, s2);
    CodeStep(k, s1);
    assert [Odd(k)] + s1 == FiveBits(k) + rest;
  }

  lemma CodedAt(k: bv10)
    ensures Comb(E(), Code(k), 1) == k
  {
    NothingAbove(k);
    FiveSteps(Upper(k), []);
    assert FiveBits(Upper(k)) + [] == FiveBits(Upper(k));
    FiveSteps(k, FiveBits(Upper(k)));
    CodeIs(k);
  }

  lemma CodeIs(k: bv10)
    ensures FiveBits(k) + FiveBits(Upper(k)) == Code(k)
  {
  }

  lemma NothingAbove(k: bv10)
    ensures Upper(Upper(k)) == 0
  {
    TenHalves(k);
  }

  lemma ECoded()
    ensures Coded(E(), 1, Code)
  {
    forall k: bv10 ensures Comb(E(), Code(k), 1) == k { CodedAt(k); }
  }

  // ---------------------------------------------------------------- the order of e

  const LADDER: Ladder<bv10> := Ladder(2, 4, 16, 32, 256, 41, 773, 612, 749, 106, 422, 217, 154, 199, 150, 151, 290, 634, 150)

  lemma Products0()
    ensures Comb(E(), Code(2), 2) == 4
    ensures Comb(E(), Code(4), 4) == 16
    ensures Comb(E(), Code(16), 2) == 32
    ensures Comb(E(), Code(16), 16) == 256
  {
    CombIsProduct(E(), Code(2), 2);
    CombIsProduct(E(), Code(4), 4);
    CombIsProduct(E(), Code(16), 2);
    CombIsProduct(E(), Code(16), 16);
  }

  lemma Products1()
    ensures Comb(E(), Code(256), 256) == 41
    ensures Comb(E(), Code(41), 32) == 773
    ensures Comb(E(), Code(41), 41) == 612
    ensures Comb(E(), Code(612), 2) == 749
  {
    CombIsProduct(E(), Code(256), 256);
    CombIsProduct(E(), Code(41), 32);
    CombIsProduct(E(), Code(41), 41);
    CombIsProduct(E(), Code(612), 2);
  }

  lemma Products2()
    ensures Comb(E(), Code(612), 612) == 106
    ensures Comb(E(), Code(106), 773) == 422
    ensures Comb(E(), Code(422), 256) == 217
    ensures Comb(E(), Code(106), 106) == 154
  {
    CombIsProduct(E(), Code(612), 612);
    CombIsProduct(E(), Code(106), 773);
    CombIsProduct(E(), Code(422), 256);
    CombIsProduct(E(), Code(106), 106);
  }

  lemma Products3()
    ensures Comb(E(), Code(154), 154) == 199
    ensures Comb(E(), Code(199), 422) == 150
    ensures Comb(E(), Code(150), 150) == 151
    ensures Comb(E(), Code(151), 150) == 1
  {
    CombIsProduct(E(), Code(154), 154);
    CombIsProduct(E(), Code(199), 422);
    CombIsProduct(E(), Code(150), 150);
    CombIsProduct(E(), Code(151), 150);
  }

  lemma ProductsOne()
    ensures Comb(E(), Code(290), 748) == 1
    ensures Comb(E(), Code(634), 216) == 1
    ensures Comb(E(), Code(150), 151) == 1
    ensures Comb(E(), Code(752), 13) == 1
  {
    CombIsProduct(E(), Code(290), 748);
    CombIsProduct(E(), Code(634), 216);
    CombIsProduct(E(), Code(150), 151);
    CombIsProduct(E(), Code(752), 13);
  }

  lemma EClimbs()
    ensures Climbs(E(), 1, Code, LADDER)
  {
    Products0();
    Products1();
    Products2();
    Products3();
  }

  lemma EInverts()
    ensures Inverts(E(), 1, Code, LADDER)
  {
    ProductsOne();
  }

  lemma EOrder()
    ensures Order1023(E())
  {
    ELaws();
    ECoded();
    EClimbs();
    EInverts();
    LadderOrder(E(), 1, Code, LADDER);
  }

  // ---------------------------------------------------------------- the three roots

  function Iota(s: nat): bv10 { Embedding(E(), Basis, s, 5) }

  lemma PointIsLawful(bits: seq<bool>, m: nat, r: Ring<bv10>)
    requires Scaled(E(), bits, m, r)
    ensures Lawful(Point(r, Iota))
  {
    ELaws();
    ScaledAdditive(E(), bits, m, r);
    PointLawful(Point(r, Iota), E(), Basis);
  }

  lemma SymbolBits(s: nat, b0: bool, b1: bool, b2: bool, b3: bool, b4: bool)
    requires s == (if b0 then 1 else 0) + (if b1 then 2 else 0) + (if b2 then 4 else 0) + (if b3 then 8 else 0) + (if b4 then 16 else 0)
    ensures HasBit(s, 0) == b0 && HasBit(s, 1) == b1 && HasBit(s, 2) == b2 && HasBit(s, 3) == b3 && HasBit(s, 4) == b4
  {
    assert Pow2(0) == 1 && Pow2(1) == 2 && Pow2(2) == 4 && Pow2(3) == 8 && Pow2(4) == 16;
  }

  function Embed(b0: bool, b1: bool, b2: bool, b3: bool, b4: bool): bv10 {
    ((((0 ^ (if b0 then 1 else 0)) ^ (if b1 then 333 else 0)) ^ (if b2 then 643 else 0)) ^ (if b3 then 615 else 0))
    ^ (if b4 then 290 else 0)
  }

  lemma EmbedIs(s: nat)
    ensures Embedding(E(), Basis, s, 5) == Embed(HasBit(s, 0), HasBit(s, 1), HasBit(s, 2), HasBit(s, 3), HasBit(s, 4))
  {
    EmbeddingFive(E(), Basis, s);
  }

  lemma SymbolIs(s: nat, b0: bool, b1: bool, b2: bool, b3: bool, b4: bool)
    requires s == (if b0 then 1 else 0) + (if b1 then 2 else 0) + (if b2 then 4 else 0) + (if b3 then 8 else 0) + (if b4 then 16 else 0)
    ensures Iota(s) == Embed(b0, b1, b2, b3, b4)
  {
    SymbolBits(s, b0, b1, b2, b3, b4);
    EmbedIs(s);
  }

  lemma RootForm(w: bv10)
    ensures E().plus(w, E().timesX(E().timesX(E().plus(w, E().timesX(w))))) == Root0(w)
  {
  }

  lemma TimesRoot0(bits: seq<bool>, r: Ring<bv10>, w: bv10)
    requires Thirteen(bits) && Scaled(E(), bits, 0, r)
    ensures SameAt(r.timesX, Root0, w)
  {
    ELaws();
    assert ScaledAt(E(), bits, 0, r, w);
    CombThirteen(E(), bits, w);
    RootForm(w);
    FirstPowers(E(), Root0(w));
  }

  lemma TimesRoot1(bits: seq<bool>, r: Ring<bv10>, w: bv10)
    requires Thirteen(bits) && Scaled(E(), bits, 1, r)
    ensures SameAt(r.timesX, Root1, w)
  {
    ELaws();
    assert ScaledAt(E(), bits, 1, r, w);
    CombThirteen(E(), bits, w);
    RootForm(w);
    FirstPowers(E(), Root0(w));
  }

  lemma TimesRoot2(bits: seq<bool>, r: Ring<bv10>, w: bv10)
    requires Thirteen(bits) && Scaled(E(), bits, 2, r)
    ensures SameAt(r.timesX, Root2, w)
  {
    ELaws();
    assert ScaledAt(E(), bits, 2, r, w);
    CombThirteen(E(), bits, w);
    RootForm(w);
    FirstPowers(E(), Root0(w));
  }

  /** The images of the symbols that occur in the generator's multiples. */
  predicate Images(iota: nat -> bv10) {
    && iota(1) == 1
    && iota(2) == 333
    && iota(3) == 332
    && iota(4) == 643
    && iota(5) == 642
    && iota(6) == 974
    && iota(8) == 615
    && iota(10) == 810
    && iota(12) == 228
    && iota(13) == 229
    && iota(15) == 424
    && iota(16) == 290
    && iota(18) == 111
    && iota(19) == 110
    && iota(20) == 929
    && iota(21) == 928
    && iota(22) == 748
    && iota(24) == 837
    && iota(26) == 520
    && iota(29) == 455
    && iota(30) == 139
  }

  lemma IotaImages()
    ensures Images(Iota)
  {
    SymbolIs(1, true, false, false, false, false);
    SymbolIs(2, false, true, false, false, false);
    SymbolIs(3, true, true, false, false, false);
    SymbolIs(4, false, false, true, false, false);
    SymbolIs(5, true, false, true, false, false);
    SymbolIs(6, false, true, true, false, false);
    SymbolIs(8, false, false, false, true, false);
    SymbolIs(10, false, true, false, true, false);
    SymbolIs(12, false, false, true, true, false);
    SymbolIs(13, true, false, true, true, false);
    SymbolIs(15, true, true, true, true, false);
    SymbolIs(16, false, false, false, false, true);
    SymbolIs(18, false, true, false, false, true);
    SymbolIs(19, true, true, false, false, true);
    SymbolIs(20, false, false, true, false, true);
    SymbolIs(21, true, false, true, false, true);
    SymbolIs(22, false, true, true, false, true);
    SymbolIs(24, false, false, false, true, true);
    SymbolIs(26, false, true, false, true, true);
    SymbolIs(29, true, false, true, true, true);
    SymbolIs(30, false, true, true, true, true);
  }

  /** x^6 and its multiples at the element that g multiplies by: the generator's remainders have the same values. */
  predicate Vanishes(g: bv10 -> bv10) {
    && Horner(Plus, g, 0, 111, 455, 928, 929, 748, 455) == g(g(g(g(g(g(1))))))
    && Horner(Plus, g, 0, 229, 110, 332, 1, 642, 110) == g(g(g(g(g(g(333))))))
    && Horner(Plus, g, 0, 520, 424, 974, 333, 810, 424) == g(g(g(g(g(g(643))))))
    && Horner(Plus, g, 0, 455, 139, 228, 643, 929, 139) == g(g(g(g(g(g(615))))))
    && Horner(Plus, g, 0, 110, 928, 837, 615, 1, 928) == g(g(g(g(g(g(290))))))
  }

  lemma Vanish0()
    ensures Vanishes(Root0)
  {
    IsRoot0();
  }

  lemma Vanish1()
    ensures Vanishes(Root1)
  {
    IsRoot1();
  }

  lemma Vanish2()
    ensures Vanishes(Root2)
  {
    IsRoot2();
  }

  lemma PowersOfTwo()
    ensures Pow2(0) == 1 && Pow2(1) == 2 && Pow2(2) == 4 && Pow2(3) == 8 && Pow2(4) == 16
  {
  }

  lemma MultipleAt0(p: Point<bv10>, g: bv10 -> bv10)
    requires p.r.plus == Plus && p.r.zero == 0 && Images(p.iota) && Vanishes(g) && Same(p.r.timesX, g)
    ensures RootAt(p, 0)
  {
    PowersOfTwo();
    RootValue(p, 0, g, [18, 29, 21, 20, 22, 29], [111, 455, 928, 929, 748, 455], 1);
  }

  lemma MultipleAt1(p: Point<bv10>, g: bv10 -> bv10)
    requires p.r.plus == Plus && p.r.zero == 0 && Images(p.iota) && Vanishes(g) && Same(p.r.timesX, g)
    ensures RootAt(p, 1)
  {
    PowersOfTwo();
    RootValue(p, 1, g, [13, 19, 3, 1, 5, 19], [229, 110, 332, 1, 642, 110], 333);
  }

  lemma MultipleAt2(p: Point<bv10>, g: bv10 -> bv10)
    requires p.r.plus == Plus && p.r.zero == 0 && Images(p.iota) && Vanishes(g) && Same(p.r.timesX, g)
    ensures RootAt(p, 2)
  {
    PowersOfTwo();
    RootValue(p, 2, g, [26, 15, 6, 2, 10, 15], [520, 424, 974, 333, 810, 424], 643);
  }

  lemma MultipleAt3(p: Point<bv10>, g: bv10 -> bv10)
    requires p.r.plus == Plus && p.r.zero == 0 && Images(p.iota) && Vanishes(g) && Same(p.r.timesX, g)
    ensures RootAt(p, 3)
  {
    PowersOfTwo();
    RootValue(p, 3, g, [29, 30, 12, 4, 20, 30], [455, 139, 228, 643, 929, 139], 615);
  }

  lemma MultipleAt4(p: Point<bv10>, g: bv10 -> bv10)
    requires p.r.plus == Plus && p.r.zero == 0 && Images(p.iota) && Vanishes(g) && Same(p.r.timesX, g)
    ensures RootAt(p, 4)
  {
    PowersOfTwo();
    RootValue(p, 4, g, [19, 21, 24, 8, 1, 21], [110, 928, 837, 615, 1, 928], 290);
  }

  /** A point is a root if its multiplication is that of an element where the generator vanishes. */
  lemma RootFrom(p: Point<bv10>, g: bv10 -> bv10)
    requires p.r.plus == Plus && p.r.zero == 0 && Images(p.iota) && Vanishes(g) && Same(p.r.timesX, g)
    ensures IsRoot(p)
  {
    MultipleAt0(p, g);
    MultipleAt1(p, g);
    MultipleAt2(p, g);
    MultipleAt3(p, g);
    MultipleAt4(p, g);
  }

  lemma TimesIs0(bits: seq<bool>, r: Ring<bv10>)
    requires Thirteen(bits) && Scaled(E(), bits, 0, r)
    ensures Same(r.timesX, Root0)
  {
    forall w ensures SameAt(r.timesX, Root0, w) { TimesRoot0(bits, r, w); }
  }

  lemma PointIsRoot0(bits: seq<bool>, r: Ring<bv10>)
    requires Thirteen(bits) && Scaled(E(), bits, 0, r)
    ensures RootPoint(E(), Iota, bits, 0, r)
  {
    PointIsLawful(bits, 0, r);
    TimesIs0(bits, r);
    IotaImages();
    Vanish0();
    RootFrom(Point(r, Iota), Root0);
  }

  lemma TimesIs1(bits: seq<bool>, r: Ring<bv10>)
    requires Thirteen(bits) && Scaled(E(), bits, 1, r)
    ensures Same(r.timesX, Root1)
  {
    forall w ensures SameAt(r.timesX, Root1, w) { TimesRoot1(bits, r, w); }
  }

  lemma PointIsRoot1(bits: seq<bool>, r: Ring<bv10>)
    requires Thirteen(bits) && Scaled(E(), bits, 1, r)
    ensures RootPoint(E(), Iota, bits, 1, r)
  {
    PointIsLawful(bits, 1, r);
    TimesIs1(bits, r);
    IotaImages();
    Vanish1();
    RootFrom(Point(r, Iota), Root1);
  }

  lemma TimesIs2(bits: seq<bool>, r: Ring<bv10>)
    requires Thirteen(bits) && Scaled(E(), bits, 2, r)
    ensures Same(r.timesX, Root2)
  {
    forall w ensures SameAt(r.timesX, Root2, w) { TimesRoot2(bits, r, w); }
  }

  lemma PointIsRoot2(bits: seq<bool>, r: Ring<bv10>)
    requires Thirteen(bits) && Scaled(E(), bits, 2, r)
    ensures RootPoint(E(), Iota, bits, 2, r)
  {
    PointIsLawful(bits, 2, r);
    TimesIs2(bits, r);
    IotaImages();
    Vanish2();
    RootFrom(Point(r, Iota), Root2);
  }

  lemma RootKernel(bits: seq<bool>, r: Ring<bv10>)
    requires Thirteen(bits) && Scaled(E(), bits, 0, r)
    ensures NoKernel(r)
  {
    ELaws();
    ECoded();
    CombThirteen(E(), bits, 1);
    RootForm(1);
    ProductsOne();
    ScaledKernel(E(), 1, Code, bits, Code(752), r);
  }

  lemma IotaInjective(s: nat)
    requires s < 32 && Iota(s) == 0
    ensures s == 0
  {
    EmbedIs(s);
    Independent(HasBit(s, 0), HasBit(s, 1), HasBit(s, 2), HasBit(s, 3), HasBit(s, 4));
    assert s / 2 / 2 / 2 / 2 / 2 == 0;
  }

  lemma ThreeRoots(bits: seq<bool>, p: Ring<bv10>, q: Ring<bv10>, s: Ring<bv10>, m: nat, n: nat, a: nat, b: nat, c: nat)
    requires Thirteen(bits) && Scaled(E(), bits, 0, p) && Scaled(E(), bits, 1, q) && Scaled(E(), bits, 2, s)
    requires 0 < m && 0 < n && m + n < 1023 && a < 32 && b < 32 && c < 32 && Three(m, n, a, b, c) == 0
    ensures Iota(a) == Iota(b) == Iota(c) == 0
  {
    ELaws();
    EOrder();
    RootKernel(bits, p);
    PointIsRoot0(bits, p);
    PointIsRoot1(bits, q);
    PointIsRoot2(bits, s);
    ThreePoints(E(), Iota, bits, p, q, s, m, n, a, b, c);
  }

  /** Three symbols at most 1022 positions apart do not cancel. */
  lemma ThreeSymbols(m: nat, n: nat, a: nat, b: nat, c: nat)
    requires 0 < m && 0 < n && m + n < 1023 && a < 32 && b < 32 && c < 32 && Three(m, n, a, b, c) == 0
    ensures a == b == c == 0
  {
    var bits := [true, false, true, true];
    var p := Scale(E(), bits, 0);
    var q := Scale(E(), bits, 1);
    var s := Scale(E(), bits, 2);
    ThreeRoots(bits, p, q, s, m, n, a, b, c);
    IotaInjective(a);
    IotaInjective(b);
    IotaInjective(c);
  }
}
