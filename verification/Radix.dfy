/** Big-endian digit sequences in any base, and how many digits one base needs for another. */
module Radix {
  import opened Limbs

  function Pow(b: nat, n: nat): nat {
    if n == 0 then 1 else b * Pow(b, n - 1)
  }

  lemma {:induction false} PowPositive(b: nat, n: nat)
    requires b > 0
    ensures Pow(b, n) > 0
  {
    if n > 0 { PowPositive(b, n - 1); MulLe(1, b, Pow(b, n - 1)); }
  }

  lemma {:induction false} PowAdd(b: nat, m: nat, n: nat)
    ensures Pow(b, m + n) == Pow(b, m) * Pow(b, n)
  {
    if m > 0 {
      PowAdd(b, m - 1, n);
      assert b * (Pow(b, m - 1) * Pow(b, n)) == b * Pow(b, m - 1) * Pow(b, n);
    }
  }

  lemma PowGrows(b: nat, m: nat, n: nat)
    requires b > 0 && m <= n
    ensures Pow(b, m) <= Pow(b, n)
  {
    PowAdd(b, n - m, m);
    PowPositive(b, n - m);
    MulLe(1, Pow(b, n - m), Pow(b, m));
  }

  // ---------------------------------------------------------------- digits and values

  predicate InBase(s: seq<nat>, b: nat) { forall i :: 0 <= i < |s| ==> s[i] < b }

  function Val(s: seq<nat>, b: nat): nat {
    if s == [] then 0 else Val(s[..|s| - 1], b) * b + s[|s| - 1]
  }

  function Digits(v: nat, b: nat): (s: seq<nat>)
    requires b > 1
  {
    if v == 0 then []
    else
      Smaller(v, b);
      Digits(v / b, b) + [v % b]
  }

  lemma Smaller(v: nat, b: nat)
    requires v > 0 && b > 1
    ensures 0 <= v / b < v && 0 <= v % b < b
  {
    DivMod(v, b);
    var q := v / b;
    MulLe(2, b, q);
  }

  /** No superfluous zero in front. */
  predicate Canonical(s: seq<nat>) { s != [] ==> s[0] != 0 }

  lemma ValSnoc(s: seq<nat>, d: nat, b: nat)
    ensures Val(s + [d], b) == Val(s, b) * b + d
  {
    assert (s + [d])[..|s|] == s;
  }

  lemma {:induction false} DigitsValue(v: nat, b: nat)
    requires b > 1
    ensures Val(Digits(v, b), b) == v
  {
    if v > 0 {
      Smaller(v, b);
      var q, d := v / b, v % b;
      DigitsValue(q, b);
      ValSnoc(Digits(q, b), d, b);
      DivMod(v, b);
    }
  }

  lemma {:induction false} DigitsShape(v: nat, b: nat)
    requires b > 1
    ensures InBase(Digits(v, b), b) && Canonical(Digits(v, b)) && (v > 0 ==> Digits(v, b) != [])
  {
    if v > 0 {
      Smaller(v, b);
      DigitsShape(v / b, b);
      DivMod(v, b);
    }
  }

  lemma {:induction false} DigitsVal(s: seq<nat>, b: nat)
    requires b > 1 && InBase(s, b) && Canonical(s)
    ensures Digits(Val(s, b), b) == s
    ensures s != [] ==> Val(s, b) > 0
  {
    if s != [] {
      var n := |s| - 1;
      DigitsVal(s[..n], b);
      var v := Val(s[..n], b);
      MulLe(if n > 0 then 1 else 0, v, b);
      ModIs(s[n], v, b, Val(s, b));
    }
  }

  lemma {:induction false} ValBound(s: seq<nat>, b: nat)
    requires b > 0 && InBase(s, b)
    ensures Val(s, b) < Pow(b, |s|)
  {
    if s != [] {
      var n := |s| - 1;
      ValBound(s[..n], b);
      MulGap(Val(s[..n], b), Pow(b, n), b);
    }
  }

  lemma {:induction false} ValConcat(s: seq<nat>, t: seq<nat>, b: nat)
    ensures Val(s + t, b) == Val(s, b) * Pow(b, |t|) + Val(t, b)
  {
    if t == [] {
      assert s + t == s;
    } else {
      var n := |t| - 1;
      assert (s + t)[..|s + t| - 1] == s + t[..n];
      ValConcat(s, t[..n], b);
      assert (Val(s, b) * Pow(b, n) + Val(t[..n], b)) * b == Val(s, b) * (b * Pow(b, n)) + Val(t[..n], b) * b;
    }
  }

  /** Leading zeros carry no value. */
  lemma ValZeros(s: seq<nat>, k: nat, b: nat)
    requires k <= |s| && forall i :: 0 <= i < k ==> s[i] == 0
    ensures Val(s, b) == Val(s[k..], b)
  {
    assert s == s[..k] + s[k..];
    ValConcat(s[..k], s[k..], b);
    ValAllZero(s[..k], b);
  }

  lemma {:induction false} ValAllZero(s: seq<nat>, b: nat)
    requires forall i :: 0 <= i < |s| ==> s[i] == 0
    ensures Val(s, b) == 0
  {
    if s != [] { ValAllZero(s[..|s| - 1], b); }
  }

  // ---------------------------------------------------------------- buffer sizes

  /** If p digits of base a fit in q digits of base b, then so do k blocks of them. */
  lemma {:induction false} Blocks(a: nat, p: nat, b: nat, q: nat, k: nat)
    requires Pow(a, p) <= Pow(b, q)
    ensures Pow(a, p * k) <= Pow(b, q * k)
  {
    if k > 0 {
      Blocks(a, p, b, q, k - 1);
      PowAdd(a, p, p * (k - 1));
      PowAdd(b, q, q * (k - 1));
      MulLe(Pow(a, p * (k - 1)), Pow(b, q * (k - 1)), Pow(a, p));
      MulLe(Pow(a, p), Pow(b, q), Pow(b, q * (k - 1)));
    }
  }

  lemma Combine(a: nat, m: nat, n: nat, b: nat, p: nat, q: nat)
    requires Pow(a, m) <= Pow(b, p) && Pow(a, n) <= Pow(b, q)
    ensures Pow(a, m + n) <= Pow(b, p + q)
  {
    PowAdd(a, m, n);
    PowAdd(b, p, q);
    MulLe(Pow(a, m), Pow(b, p), Pow(a, n));
    MulLe(Pow(a, n), Pow(b, q), Pow(b, p));
  }

  // ---------------------------------------------------------------- the carry loop

  lemma ValFront(s: seq<nat>, b: nat)
    requires s != []
    ensures Val(s, b) == s[0] * Pow(b, |s| - 1) + Val(s[1..], b)
  {
    assert s == [s[0]] + s[1..];
    ValConcat([s[0]], s[1..], b);
    assert Val([s[0]], b) == s[0];
  }

  /** One digit d of the old tail x replaced by the low part of n = carry + m * d, the rest carried on. */
  lemma CarryStep(x: seq<nat>, a: seq<nat>, b: nat, m: nat, c: nat, carry: nat, n: nat)
    requires |x| == |a| > 0 && b > 0 && n == carry + m * x[0] && a[0] == n % b
    requires Val(a[1..], b) + carry * Pow(b, |a| - 1) == Val(x[1..], b) * m + c
    ensures 0 <= n / b && Val(a, b) + n / b * Pow(b, |a|) == Val(x, b) * m + c
  {
    ValFront(x, b);
    ValFront(a, b);
    DivMod(n, b);
    CarryAlgebra(n / b, n % b, b, Pow(b, |a| - 1), n, carry, m, x[0], Val(a[1..], b), Val(x[1..], b), c);
  }

  lemma CarryAlgebra(hi: nat, lo: nat, b: nat, w: nat, n: nat, carry: nat, m: nat, d: nat, a: nat, x: nat, c: nat)
    requires n == hi * b + lo && n == carry + m * d && a + carry * w == x * m + c
    ensures lo * w + a + hi * (b * w) == (d * w + x) * m + c
  {
    Regroup(hi, b, lo, w);
    Sum3(carry, m * d, 0, w);
    assert m * d * w == d * w * m;
    Sum3(d * w, x, 0, m);
  }

  /** A carry out of the buffer means that the number did not fit. */
  lemma NoCarry(v: nat, carry: nat, w: nat, t: nat)
    requires v + carry * w == t < w
    ensures carry == 0 && v == t
  {
    if carry > 0 { MulLe(1, carry, w); }
  }
}
