/** Exclusive or of naturals, bit by bit, and how it meets shifts and masks. */
module BitXor {
  import opened Limbs

  function Xor(x: nat, y: nat): nat {
    if x == 0 && y == 0 then 0 else 2 * Xor(x / 2, y / 2) + if x % 2 == y % 2 then 0 else 1
  }

  lemma {:induction false} XorComm(x: nat, y: nat)
    ensures Xor(x, y) == Xor(y, x)
  {
    if x > 0 || y > 0 { XorComm(x / 2, y / 2); }
  }

  lemma {:induction false} XorZero(x: nat)
    ensures Xor(x, 0) == x
  {
    if x > 0 { XorZero(x / 2); }
  }

  lemma {:induction false} XorSelf(x: nat)
    ensures Xor(x, x) == 0
  {
    if x > 0 { XorSelf(x / 2); }
  }

  lemma XorHalves(x: nat, y: nat)
    ensures Xor(x, y) / 2 == Xor(x / 2, y / 2) && Xor(x, y) % 2 == if x % 2 == y % 2 then 0 else 1
  {
  }

  lemma {:induction false} XorAssoc(x: nat, y: nat, z: nat)
    ensures Xor(Xor(x, y), z) == Xor(x, Xor(y, z))
    decreases x + y + z
  {
    if x + y + z > 0 {
      XorAssoc(x / 2, y / 2, z / 2);
      XorHalves(x, y);
      XorHalves(y, z);
      XorHalves(Xor(x, y), z);
      XorHalves(x, Xor(y, z));
      Rebuild(Xor(Xor(x, y), z), Xor(x, Xor(y, z)));
    }
  }

  lemma Rebuild(x: nat, y: nat)
    requires x / 2 == y / 2 && x % 2 == y % 2
    ensures x == y
  {
  }

  lemma Doubled(x: nat, k: nat)
    requires k > 0
    ensures x * Pow2(k) == 2 * (x * Pow2(k - 1))
  {
    assert x * (2 * Pow2(k - 1)) == 2 * (x * Pow2(k - 1));
  }

  lemma XorMedial(a: nat, b: nat, c: nat, d: nat)
    ensures Xor(Xor(a, b), Xor(c, d)) == Xor(Xor(a, c), Xor(b, d))
  {
    XorAssoc(a, b, Xor(c, d));
    XorAssoc(b, c, d);
    XorComm(b, c);
    XorAssoc(c, b, d);
    XorAssoc(a, c, Xor(b, d));
  }

  /** An exclusive or is undone by repeating it. */
  lemma XorCancel(x: nat, y: nat)
    ensures Xor(x, Xor(x, y)) == y
  {
    XorAssoc(x, x, y);
    XorSelf(x);
    XorComm(0, y);
    XorZero(y);
  }

  lemma XorDouble(a: nat, b: nat)
    ensures Xor(2 * a, 2 * b) == 2 * Xor(a, b)
  {
    XorHalves(2 * a, 2 * b);
  }

  lemma {:induction false} XorShifted(x: nat, y: nat, k: nat)
    ensures Xor(x * Pow2(k), y * Pow2(k)) == Xor(x, y) * Pow2(k)
  {
    if k > 0 {
      Doubled(x, k);
      Doubled(y, k);
      Doubled(Xor(x, y), k);
      XorShifted(x, y, k - 1);
      XorDouble(x * Pow2(k - 1), y * Pow2(k - 1));
    }
  }

  lemma {:induction false} XorDiv(x: nat, y: nat, k: nat)
    ensures 0 <= x / Pow2(k) && 0 <= y / Pow2(k) && Xor(x, y) / Pow2(k) == Xor(x / Pow2(k), y / Pow2(k))
  {
    if k > 0 {
      XorDiv(x / 2, y / 2, k - 1);
      XorHalves(x, y);
      DivDiv(x, k);
      DivDiv(y, k);
      DivDiv(Xor(x, y), k);
    }
  }

  lemma DivDiv(x: nat, k: nat)
    requires k > 0
    ensures x / Pow2(k) == x / 2 / Pow2(k - 1) >= 0
  {
    var p := Pow2(k - 1);
    var q, r := x / 2 / p, x / 2 % p;
    assert x == 2 * (x / 2) + x % 2;
    assert x / 2 == p * q + r;
    assert x == q * (2 * p) + (2 * r + x % 2);
    ModIs(2 * r + x % 2, q, 2 * p, x);
  }

  lemma {:induction false} XorMod(x: nat, y: nat, k: nat)
    ensures Xor(x, y) % Pow2(k) == Xor(x % Pow2(k), y % Pow2(k)) < Pow2(k)
  {
    if k == 0 {
      assert Xor(0, 0) == 0;
    } else {
      XorMod(x / 2, y / 2, k - 1);
      XorHalves(x, y);
      ModHalves(x, k);
      ModHalves(y, k);
      ModHalves(Xor(x, y), k);
      XorHalves(x % Pow2(k), y % Pow2(k));
      Rebuild(Xor(x, y) % Pow2(k), Xor(x % Pow2(k), y % Pow2(k)));
    }
  }

  lemma ModHalves(x: nat, k: nat)
    requires k > 0
    ensures 0 <= x % Pow2(k) && x % Pow2(k) / 2 == x / 2 % Pow2(k - 1) && x % Pow2(k) % 2 == x % 2
  {
    var p := Pow2(k - 1);
    var q, r := x / 2 / p, x / 2 % p;
    assert x / 2 == p * q + r;
    assert x == q * (2 * p) + (2 * r + x % 2);
    ModIs(2 * r + x % 2, q, 2 * p, x);
  }

  lemma XorBound(x: nat, y: nat, k: nat)
    requires x < Pow2(k) && y < Pow2(k)
    ensures Xor(x, y) < Pow2(k)
  {
    XorMod(x, y, k);
  }

  lemma XorEven(a: nat, y: nat)
    requires Xor(a, y / 2) == a + y / 2
    ensures Xor(2 * a, y) == 2 * a + y
  {
    XorHalves(2 * a, y);
    assert 2 * a / 2 == a;
  }

  /** Disjoint bits add up. */
  lemma {:induction false} XorDisjoint(x: nat, y: nat, k: nat)
    requires y < Pow2(k)
    ensures Xor(x * Pow2(k), y) == x * Pow2(k) + y
  {
    if k == 0 {
      XorZero(x);
    } else {
      var a := x * Pow2(k - 1);
      Doubled(x, k);
      XorDisjoint(x, y / 2, k - 1);
      XorEven(a, y);
    }
  }
}
