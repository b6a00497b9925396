/**
 * The field of 1024 elements as 10-bit vectors, with exclusive or for the addition.  The generator e is a root of
 * x^10 + x^9 + x^5 + x^2 + 1, and the symbols of src/bech32.cpp are embedded as a subfield.
 */
module Field1024 {

  /** Multiplication by e. */
  function TimesE(w: bv10): bv10 {
    var t := w >> 9;
    (w << 1) ^ t ^ (t << 2) ^ (t << 5) ^ (t << 9)
  }

  lemma SumAssoc(a: bv10, b: bv10, c: bv10)
    ensures (a ^ b) ^ c == a ^ (b ^ c)
  {
  }

  lemma SumComm(a: bv10, b: bv10)
    ensures a ^ b == b ^ a
  {
  }

  lemma SumZero(a: bv10)
    ensures a ^ 0 == a == 0 ^ a && a ^ a == 0
  {
  }

  lemma LinearE(x: bv10, y: bv10)
    ensures TimesE(x ^ y) == TimesE(x) ^ TimesE(y)
  {
  }

  lemma KernelE(x: bv10)
    ensures TimesE(x) == 0 <==> x == 0
  {
  }

  /** An element is its lowest bit and e times the others. */
  lemma LowBitAndRest(y: bv10)
    ensures (if y & 1 != 0 then 1 else 0) ^ TimesE(y >> 1) == y
  {
  }

  lemma TenHalves(y: bv10)
    ensures y >> 1 >> 1 >> 1 >> 1 >> 1 >> 1 >> 1 >> 1 >> 1 >> 1 == 0
  {
  }

  /** The bits of a symbol; the element a of the source goes to 333, a root of a^5 + a^3 + 1. */
  function Basis(n: nat): bv10 {
    if n == 0 then 1 else if n == 1 then 333 else if n == 2 then 643 else if n == 3 then 615 else 290
  }

  lemma Independent(b0: bool, b1: bool, b2: bool, b3: bool, b4: bool)
    requires ((((0 ^ (if b0 then 1 else 0)) ^ (if b1 then 333 else 0)) ^ (if b2 then 643 else 0)) ^ (if b3 then 615 else 0))
             ^ (if b4 then 290 else 0) == 0 as bv10
    ensures !b0 && !b1 && !b2 && !b3 && !b4
  {
  }

  // The roots b, b e and b e^2 of the generator, where b = e^997 = 1 + e^2 + e^3.

  function Root0(w: bv10): bv10 { w ^ TimesE(TimesE(w ^ TimesE(w))) }

  function Root1(w: bv10): bv10 { TimesE(Root0(w)) }

  function Root2(w: bv10): bv10 { TimesE(Root1(w)) }

  /** What x^6 and its multiples leave modulo the generator has the value of x^6. */
  lemma IsRoot0()
    ensures 111 ^ Root0(455 ^ Root0(928 ^ Root0(929 ^ Root0(748 ^ Root0(455 ^ Root0(0))))))
         == Root0(Root0(Root0(Root0(Root0(Root0(1))))))
    ensures 229 ^ Root0(110 ^ Root0(332 ^ Root0(1 ^ Root0(642 ^ Root0(110 ^ Root0(0))))))
         == Root0(Root0(Root0(Root0(Root0(Root0(333))))))
    ensures 520 ^ Root0(424 ^ Root0(974 ^ Root0(333 ^ Root0(810 ^ Root0(424 ^ Root0(0))))))
         == Root0(Root0(Root0(Root0(Root0(Root0(643))))))
    ensures 455 ^ Root0(139 ^ Root0(228 ^ Root0(643 ^ Root0(929 ^ Root0(139 ^ Root0(0))))))
         == Root0(Root0(Root0(Root0(Root0(Root0(615))))))
    ensures 110 ^ Root0(928 ^ Root0(837 ^ Root0(615 ^ Root0(1 ^ Root0(928 ^ Root0(0))))))
         == Root0(Root0(Root0(Root0(Root0(Root0(290))))))
  {
  }

  /** What x^6 and its multiples leave modulo the generator has the value of x^6. */
  lemma IsRoot1()
    ensures 111 ^ Root1(455 ^ Root1(928 ^ Root1(929 ^ Root1(748 ^ Root1(455 ^ Root1(0))))))
         == Root1(Root1(Root1(Root1(Root1(Root1(1))))))
    ensures 229 ^ Root1(110 ^ Root1(332 ^ Root1(1 ^ Root1(642 ^ Root1(110 ^ Root1(0))))))
         == Root1(Root1(Root1(Root1(Root1(Root1(333))))))
    ensures 520 ^ Root1(424 ^ Root1(974 ^ Root1(333 ^ Root1(810 ^ Root1(424 ^ Root1(0))))))
         == Root1(Root1(Root1(Root1(Root1(Root1(643))))))
    ensures 455 ^ Root1(139 ^ Root1(228 ^ Root1(643 ^ Root1(929 ^ Root1(139 ^ Root1(0))))))
         == Root1(Root1(Root1(Root1(Root1(Root1(615))))))
    ensures 110 ^ Root1(928 ^ Root1(837 ^ Root1(615 ^ Root1(1 ^ Root1(928 ^ Root1(0))))))
         == Root1(Root1(Root1(Root1(Root1(Root1(290))))))
  {
  }

  /** What x^6 and its multiples leave modulo the generator has the value of x^6. */
  lemma IsRoot2()
    ensures 111 ^ Root2(455 ^ Root2(928 ^ Root2(929 ^ Root2(748 ^ Root2(455 ^ Root2(0))))))
         == Root2(Root2(Root2(Root2(Root2(Root2(1))))))
    ensures 229 ^ Root2(110 ^ Root2(332 ^ Root2(1 ^ Root2(642 ^ Root2(110 ^ Root2(0))))))
         == Root2(Root2(Root2(Root2(Root2(Root2(333))))))
    ensures 520 ^ Root2(424 ^ Root2(974 ^ Root2(333 ^ Root2(810 ^ Root2(424 ^ Root2(0))))))
         == Root2(Root2(Root2(Root2(Root2(Root2(643))))))
    ensures 455 ^ Root2(139 ^ Root2(228 ^ Root2(643 ^ Root2(929 ^ Root2(139 ^ Root2(0))))))
         == Root2(Root2(Root2(Root2(Root2(Root2(615))))))
    ensures 110 ^ Root2(928 ^ Root2(837 ^ Root2(615 ^ Root2(1 ^ Root2(928 ^ Root2(0))))))
         == Root2(Root2(Root2(Root2(Root2(Root2(290))))))
  {
  }
}
