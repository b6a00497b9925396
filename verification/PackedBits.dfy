/** Bits packed eight to a byte, the lowest bit first. */
module PackedBits {
  function Mask(k: nat): bv8
    requires k < 8
  {
    1 << k
  }

  predicate Test(m: bv8, k: nat)
    requires k < 8
  {
    Mask(k) & m != 0
  }

  lemma Masks(k: nat)
    requires k < 8
    ensures Mask(k) == [1, 2, 4, 8, 16, 32, 64, 128][k]
  {
    assert k == 0 || k == 1 || k == 2 || k == 3 || k == 4 || k == 5 || k == 6 || k == 7;
  }

  lemma MasksApart(k: nat, j: nat)
    requires k < 8 && j < 8
    ensures Mask(k) != 0
    ensures k != j ==> Mask(k) & Mask(j) == 0
  {
    Masks(k);
    Masks(j);
  }

  lemma BitAlgebra(m: bv8, p: bv8, q: bv8)
    ensures q & (m | q) == q && q & (m & !q) == 0
    ensures p & q == 0 ==> q & (m | p) == q & m && q & (m & !p) == q & m
  {
  }

  /** Setting or clearing one bit leaves the other seven. */
  lemma OneBit(m: bv8, k: nat, j: nat)
    requires k < 8 && j < 8
    ensures Test(m | Mask(k), j) == (j == k || Test(m, j))
    ensures Test(m & !Mask(k), j) == (j != k && Test(m, j))
  {
    MasksApart(k, j);
    MasksApart(j, k);
    BitAlgebra(m, Mask(k), Mask(j));
  }

  lemma FullByte(j: nat)
    requires j < 8
    ensures Test(0xFF, j)
  {
    MasksApart(j, j);
    BitAlgebra(0xFF, 0, Mask(j));
    assert 0xFF | Mask(j) == 0xFF;
  }

  function BitsOf(mem: seq<bv8>): (bits: seq<bool>)
    ensures |bits| == 8 * |mem|
  {
    seq(8 * |mem|, s requires 0 <= s < 8 * |mem| => Test(mem[s / 8], s % 8))
  }

  lemma BitRead(mem: seq<bv8>, mem': seq<bv8>, i: nat, k: nat, b: bool, i': nat, j: nat)
    requires i < |mem| && i' < |mem| && k < 8 && j < 8
    requires mem' == mem[i := if b then mem[i] | Mask(k) else mem[i] & !Mask(k)]
    ensures Test(mem'[i'], j) == if i' == i && j == k then b else Test(mem[i'], j)
  {
    OneBit(mem[i], k, j);
  }

  lemma BitWritten(mem: seq<bv8>, mem': seq<bv8>, s: nat, b: bool)
    requires s < 8 * |mem|
    requires mem' == mem[s / 8 := if b then mem[s / 8] | Mask(s % 8) else mem[s / 8] & !Mask(s % 8)]
    ensures BitsOf(mem') == BitsOf(mem)[s := b]
  {
    forall t | 0 <= t < 8 * |mem| ensures BitsOf(mem')[t] == BitsOf(mem)[s := b][t] {
      BitRead(mem, mem', s / 8, s % 8, b, t / 8, t % 8);
    }
  }

  /** A byte is all ones, or all zeros, exactly when its eight bits are. */
  lemma FullOrEmpty(m: bv8)
    ensures m == 0xFF <==> forall j :: 0 <= j < 8 ==> Test(m, j)
    ensures m == 0 <==> forall j :: 0 <= j < 8 ==> !Test(m, j)
  {
    EightTests(m);
    forall j | 0 <= j < 8 ensures Test(m, j) == (Mask(j) & m != 0) { }
  }

  lemma EightTests(m: bv8)
    ensures m == 0xFF <==> Test(m, 0) && Test(m, 1) && Test(m, 2) && Test(m, 3) && Test(m, 4) && Test(m, 5) && Test(m, 6) && Test(m, 7)
    ensures m == 0 <==> !Test(m, 0) && !Test(m, 1) && !Test(m, 2) && !Test(m, 3) && !Test(m, 4) && !Test(m, 5) && !Test(m, 6) && !Test(m, 7)
  {
    Masks(0);
    Masks(1);
    Masks(2);
    Masks(3);
    Masks(4);
    Masks(5);
    Masks(6);
    Masks(7);
  }
}
