/** Numbers as little-endian sequences of 32-bit limbs: the arithmetic behind src/arith_uint256.{h,cpp}. */
module Limbs {
  import opened Basics

  const B: int := 0x1_0000_0000

  function Pow2(n: nat): (p: nat)
    ensures p > 0
  {
    if n == 0 then 1 else 2 * Pow2(n - 1)
  }

  /** The weight of limb i. */
  function Weight(i: nat): (w: nat)
    ensures w > 0
  {
    Pow2(32 * i)
  }

  function Num(s: seq<U32>, n: nat): nat
    requires n <= |s|
  {
    if n == 0 then 0 else Num(s, n - 1) + s[n - 1] * Weight(n - 1)
  }

  function Value(s: seq<U32>): nat { Num(s, |s|) }

  lemma MulLe(a: nat, b: nat, w: nat)
    requires a <= b
    ensures a * w <= b * w
  {
    var d: nat := b - a;
    assert b * w == a * w + d * w;
  }

  lemma MulGap(a: nat, b: nat, w: nat)
    requires a < b
    ensures a * w + w <= b * w
  {
    MulLe(a + 1, b, w);
    assert (a + 1) * w == a * w + w;
  }

  lemma {:induction false} Pow2Add(a: nat, b: nat)
    ensures Pow2(a + b) == Pow2(a) * Pow2(b)
  {
    if a > 0 {
      Pow2Add(a - 1, b);
      assert Pow2(a) * Pow2(b) == 2 * (Pow2(a - 1) * Pow2(b));
    }
  }

  lemma {:induction false} Pow2Grows(a: nat, b: nat)
    requires a <= b
    ensures Pow2(a) <= Pow2(b)
    ensures a < b ==> 2 * Pow2(a) <= Pow2(b)
    decreases b
  {
    if a < b { Pow2Grows(a, b - 1); }
  }

  lemma Pow32()
    ensures Pow2(8) == 0x100 && Pow2(16) == 0x1_0000 && Pow2(24) == 0x100_0000 && Pow2(32) == B
  {
    assert Pow2(8) == 0x100;
    Pow2Add(8, 8);
    Pow2Add(8, 16);
    Pow2Add(16, 16);
  }

  lemma WeightStep(i: nat)
    ensures Weight(i + 1) == B * Weight(i)
  {
    Pow32();
    Pow2Add(32, 32 * i);
  }

  lemma WeightAdd(i: nat, j: nat)
    ensures Weight(i + j) == Weight(i) * Weight(j)
  {
    Pow2Add(32 * i, 32 * j);
  }

  lemma {:induction false} NumBound(s: seq<U32>, n: nat)
    requires n <= |s|
    ensures Num(s, n) < Weight(n)
  {
    if n > 0 {
      NumBound(s, n - 1);
      WeightStep(n - 1);
      var w := Weight(n - 1);
      MulGap(s[n - 1], B, w);
    }
  }

  lemma {:induction false} NumSame(s: seq<U32>, t: seq<U32>, n: nat)
    requires n <= |s| && n <= |t| && s[..n] == t[..n]
    ensures Num(s, n) == Num(t, n)
  {
    if n > 0 {
      assert s[..n][..n - 1] == s[..n - 1] && t[..n][..n - 1] == t[..n - 1];
      assert s[n - 1] == s[..n][n - 1] == t[..n][n - 1];
      NumSame(s, t, n - 1);
    }
  }

  lemma {:induction false} NumZero(s: seq<U32>, m: nat, n: nat)
    requires m <= n <= |s| && forall i :: m <= i < n ==> s[i] == 0
    ensures Num(s, n) == Num(s, m)
    decreases n
  {
    if m < n { NumZero(s, m, n - 1); }
  }

  /** Writing the low half of n into limb i and carrying the high half on. */
  lemma DigitWritten(s: seq<U32>, t: seq<U32>, i: nat, n: nat)
    requires i < |s| && t == s[i := n % B]
    ensures Num(t, i + 1) + n / B * Weight(i + 1) == Num(s, i) + n * Weight(i)
  {
    assert t[..i] == s[..i];
    NumSame(s, t, i);
    WeightStep(i);
    var w, hi, lo := Weight(i), n / B, n % B;
    Regroup(hi, B, lo, w);
  }

  lemma ModIs(v: nat, q: nat, m: nat, t: nat)
    requires v < m && v + q * m == t
    ensures t % m == v && t / m == q
  {
    var q', v' := t / m, t % m;
    DivMod(t, m);
    if q' < q { MulGap(q', q, m); }
    if q < q' { MulGap(q, q', m); }
  }

  lemma DivMod(t: nat, m: nat)
    requires m > 0
    ensures 0 <= t / m && t / m * m + t % m == t && t % m < m
  {
    assert t == m * (t / m) + t % m;
  }

  /** Equal numbers of equal width have equal limbs; the top differing limb decides the order. */
  lemma {:induction false} NumOrder(s: seq<U32>, t: seq<U32>, i: nat, n: nat)
    requires i < n <= |s| && n <= |t| && s[i] < t[i]
    requires forall j :: i < j < n ==> s[j] == t[j]
    ensures Num(s, n) < Num(t, n)
    decreases n
  {
    if i == n - 1 {
      NumBound(s, i);
      MulGap(s[i], t[i], Weight(i));
    } else {
      NumOrder(s, t, i, n - 1);
    }
  }

  // ---------------------------------------------------------------- bits of a limb

  /** Bitwise or of two limbs, bit by bit. */
  function Or(x: nat, y: nat): nat {
    if x == 0 && y == 0 then 0
    else 2 * Or(x / 2, y / 2) + if x % 2 == 1 || y % 2 == 1 then 1 else 0
  }

  lemma {:induction false} OrZero(x: nat)
    ensures Or(x, 0) == x && Or(0, x) == x
  {
    if x > 0 { OrZero(x / 2); }
  }

  /** Disjoint bits add up: x lies below bit n, y is a multiple of it. */
  lemma {:induction false} OrDisjoint(x: nat, y: nat, n: nat)
    requires x < Pow2(n)
    ensures Or(x, y * Pow2(n)) == Or(y * Pow2(n), x) == x + y * Pow2(n)
  {
    var z := y * Pow2(n);
    if x == 0 || n == 0 {
      OrZero(z);
    } else {
      var h := y * Pow2(n - 1);
      assert z == 2 * h by { assert y * (2 * Pow2(n - 1)) == 2 * (y * Pow2(n - 1)); }
      OrDisjoint(x / 2, y, n - 1);
    }
  }

  lemma {:induction false} OrBound(x: nat, y: nat, n: nat)
    requires x < Pow2(n) && y < Pow2(n)
    ensures Or(x, y) < Pow2(n)
  {
    if n > 0 { OrBound(x / 2, y / 2, n - 1); }
  }

  function Or32(x: U32, y: U32): (r: U32)
    ensures r == Or(x, y)
  {
    Pow32();
    OrBound(x, y, 32);
    Or(x, y)
  }

  lemma Bit32(b: nat)
    requires b < 32
    ensures Pow2(b) < B
  {
    Pow32();
    Pow2Grows(b, 32);
  }

  /** A left shift of one limb splits into what stays and what moves to the next limb. */
  lemma ShiftSplit(a: U32, s: nat)
    requires 0 < s < 32
    ensures a * Pow2(s) == a * Pow2(s) % B + a / Pow2(32 - s) * B
    ensures a / Pow2(32 - s) < Pow2(s)
    ensures a * Pow2(s) % B == a % Pow2(32 - s) * Pow2(s)
  {
    Pow32();
    Pow2Add(32 - s, s);
    HighPart(a, Pow2(32 - s), Pow2(s));
    LowPart(a, Pow2(32 - s), Pow2(s));
  }

  lemma HighPart(a: nat, p: nat, q: nat)
    requires 0 < p && a < p * q
    ensures a / p < q
  {
    DivMod(a, p);
    if a / p >= q {
      MulLe(q, a / p, p);
    }
  }

  lemma LowPart(a: nat, p: nat, q: nat)
    requires 0 < p && 0 < q && p * q == B
    ensures a * q == a * q % B + a / p * B && a * q % B == a % p * q
  {
    var hi, lo := a / p, a % p;
    DivMod(a, p);
    Regroup(hi, p, lo, q);
    LowPartMod(hi, lo, p, q, a * q);
  }

  lemma LowPartMod(hi: nat, lo: nat, p: nat, q: nat, t: nat)
    requires 0 < q && p * q == B && lo < p && t == hi * B + lo * q
    ensures t % B == lo * q
  {
    MulGap(lo, p, q);
    ModIs(lo * q, hi, B, t);
  }

  lemma Regroup(hi: nat, p: nat, lo: nat, q: nat)
    ensures (hi * p + lo) * q == hi * (p * q) + lo * q
  {
  }

  // ---------------------------------------------------------------- steps of the limb loops

  lemma AddStep(x: seq<U32>, y: seq<U32>, s: seq<U32>, t: seq<U32>, i: nat, carry: nat)
    requires |x| == |y| == |s| == |t| && i < |s|
    requires Num(s, i) + carry * Weight(i) == Num(x, i) + Num(y, i)
    requires t == s[i := (carry + x[i] + y[i]) % B]
    ensures Num(t, i + 1) + (carry + x[i] + y[i]) / B * Weight(i + 1) == Num(x, i + 1) + Num(y, i + 1)
  {
    DigitWritten(s, t, i, carry + x[i] + y[i]);
    Sum3(carry, x[i], y[i], Weight(i));
  }

  lemma Sum3(a: nat, b: nat, c: nat, w: nat)
    ensures (a + b + c) * w == a * w + b * w + c * w
  {
  }

  lemma MulStep(x: seq<U32>, b: U32, s: seq<U32>, t: seq<U32>, i: nat, carry: nat, n: nat)
    requires |x| == |s| == |t| && i < |s|
    requires Num(s, i) + carry * Weight(i) == Num(x, i) * b
    requires n == carry + b * x[i] && t == s[i := n % B]
    ensures Num(t, i + 1) + n / B * Weight(i + 1) == Num(x, i + 1) * b
  {
    DigitWritten(s, t, i, n);
    Spread(carry, b, x[i], Weight(i), Num(x, i));
  }

  lemma Spread(carry: nat, b: nat, a: nat, w: nat, p: nat)
    ensures (carry + b * a) * w == carry * w + a * w * b
    ensures (p + a * w) * b == p * b + a * w * b
  {
    assert b * a * w == a * w * b;
  }

  /** A product of two limbs with two limb-sized addends stays below 2^64. */
  lemma NoOverflow(carry: U32, p: U32, a: U32, b: U32)
    ensures carry + p + a * b < B * B
    ensures (carry + p + a * b) / B < B
  {
    MulLe(a, B - 1, b);
    MulLe(b, B - 1, B - 1);
    assert a * b <= (B - 1) * (B - 1);
  }

  /** One limb product added in at weight i + j. */
  lemma RowStep(p: seq<U32>, y: seq<U32>, a: U32, j: nat, s: seq<U32>, t: seq<U32>, i: nat, carry: nat, n: nat)
    requires |p| == |s| == |t| && i < |y| && i + j < |s| && s[i + j] == p[i + j]
    requires Num(s, i + j) + carry * Weight(i + j) == Num(p, i + j) + a * Weight(j) * Num(y, i)
    requires n == carry + p[i + j] + a * y[i] && t == s[i + j := n % B]
    ensures Num(t, i + j + 1) + n / B * Weight(i + j + 1) == Num(p, i + j + 1) + a * Weight(j) * Num(y, i + 1)
  {
    var k := i + j;
    DigitWritten(s, t, k, n);
    WeightAdd(i, j);
    RowAlgebra(Num(s, k), Num(p, k), carry, p[k], a, y[i], Weight(i), Weight(j), Weight(k), Num(y, i), n);
  }

  lemma RowAlgebra(s: nat, p: nat, carry: nat, d: nat, a: nat, b: nat, wi: nat, wj: nat, w: nat, y: nat, n: nat)
    requires w == wi * wj && n == carry + d + a * b && s + carry * w == p + a * wj * y
    ensures s + n * w == p + d * w + a * wj * (y + b * wi)
  {
    Sum3(carry, d, a * b, w);
    assert a * wj * (b * wi) == a * b * (wi * wj);
    assert a * wj * (y + b * wi) == a * wj * y + a * wj * (b * wi);
  }

  lemma SplitAlgebra(low: nat, top: nat, d: nat, w: nat, v: nat)
    ensures low + top * v + d * (w * v) == low + (top + d * w) * v
  {
    Regroup(d, w, 0, v);
    Sum3(top, d * w, 0, v);
  }

  /** The limbs from k up form a number of their own. */
  lemma {:induction false} NumSplit(s: seq<U32>, k: nat, n: nat)
    requires k <= n <= |s|
    ensures Num(s, n) == Num(s, k) + Num(s[k..], n - k) * Weight(k)
    decreases n
  {
    if k < n {
      NumSplit(s, k, n - 1);
      WeightAdd(n - 1 - k, k);
      SplitAlgebra(Num(s, k), Num(s[k..], n - 1 - k), s[n - 1], Weight(n - 1 - k), Weight(k));
    }
  }

  /** A finished row of the product: what it leaves out is a multiple of the modulus. */
  lemma RowDone(x: seq<U32>, y: seq<U32>, j: nat, p: nat, q: nat, p': nat, carry: nat) returns (q': nat)
    requires |x| == |y| && j < |x|
    requires p + q * Weight(|x|) == Num(x, j) * Value(y)
    requires p' + carry * Weight(|x|) == p + x[j] * Weight(j) * Num(y, |x| - j)
    ensures p' + q' * Weight(|x|) == Num(x, j + 1) * Value(y)
  {
    var n := |x|;
    NumSplit(y, n - j, n);
    WeightAdd(j, n - j);
    q' := RowTotal(p, q, p', carry, Num(x, j), x[j], Weight(j), Num(y, n - j), Num(y[n - j..], j), Weight(n - j),
                   Weight(n), Value(y));
  }

  lemma RowTotal(p: nat, q: nat, p': nat, carry: nat, xj: nat, d: nat, wj: nat, low: nat, top: nat, wr: nat, m: nat, y: nat)
    returns (q': nat)
    requires m == wj * wr && y == low + top * wr
    requires p + q * m == xj * y && p' + carry * m == p + d * wj * low
    ensures p' + q' * m == (xj + d * wj) * y
  {
    q' := q + carry + d * top;
    assert (xj + d * wj) * y == xj * y + d * wj * y;
    assert d * wj * y == d * wj * low + d * wj * (top * wr);
    assert d * wj * (top * wr) == d * top * (wj * wr);
    Sum3(q, carry, d * top, m);
  }

  lemma Halves(d: nat, e: nat, w: nat)
    requires d + e + 1 == B
    ensures d * w + e * w + w == B * w
  {
    assert (d + e + 1) * w == d * w + e * w + w;
  }

  lemma {:induction false} NumComplement(s: seq<U32>, t: seq<U32>, n: nat)
    requires n <= |s| && n <= |t| && forall i :: 0 <= i < n ==> t[i] == B - 1 - s[i]
    ensures Num(s, n) + Num(t, n) == Weight(n) - 1
  {
    if n > 0 {
      NumComplement(s, t, n - 1);
      WeightStep(n - 1);
      Halves(s[n - 1], t[n - 1], Weight(n - 1));
    }
  }

  lemma {:induction false} NumTail(s: seq<U32>, t: seq<U32>, i: nat, n: nat)
    requires i <= n <= |s| && n <= |t| && forall j :: i <= j < n ==> s[j] == t[j]
    ensures Num(t, n) - Num(s, n) == Num(t, i) - Num(s, i)
    decreases n
  {
    if i < n { NumTail(s, t, i, n - 1); }
  }

  /** t is s counted up by one, the carry having run through limbs 0 to i. */
  ghost predicate CountedUp(s: seq<U32>, t: seq<U32>, i: nat) {
    && |s| == |t| && i < |s|
    && (forall j :: 0 <= j < i ==> s[j] == B - 1 && t[j] == 0)
    && t[i] == (s[i] + 1) % B
    && (forall j :: i < j < |s| ==> s[j] == t[j])
  }

  lemma CarryStops(s: seq<U32>, t: seq<U32>, i: nat)
    requires CountedUp(s, t, i) && t[i] != 0
    ensures Value(t) == Value(s) + 1
  {
    NumZero(t, 0, i);
    NumComplement(s, t, i);
    Sum3(s[i], 1, 0, Weight(i));
    assert t[i] == s[i] + 1 + 0;
    NumTail(s, t, i + 1, |s|);
  }

  lemma CarryRunsOff(s: seq<U32>, t: seq<U32>, i: nat)
    requires CountedUp(s, t, i) && t[i] == 0 && i == |s| - 1
    ensures Value(t) == 0 && Value(s) + 1 == Weight(|s|)
  {
    NumZero(t, 0, |t|);
    NumComplement(s, t, |s|);
  }

  lemma CountedUpBy1(s: seq<U32>, t: seq<U32>, i: nat)
    requires CountedUp(s, t, i) && (t[i] != 0 || i == |s| - 1)
    ensures Value(t) == (Value(s) + 1) % Weight(|s|)
    ensures Value(s) == (Value(t) + Weight(|s|) - 1) % Weight(|s|)
  {
    NumBound(s, |s|);
    NumBound(t, |t|);
    var m := Weight(|s|);
    if t[i] != 0 {
      CarryStops(s, t, i);
      ModIs(Value(t), 0, m, Value(s) + 1);
      ModIs(Value(s), 1, m, Value(t) + m - 1);
    } else {
      CarryRunsOff(s, t, i);
      ModIs(0, 1, m, Value(s) + 1);
      ModIs(Value(s), 0, m, Value(t) + m - 1);
    }
  }

  /** Adding the two's complement subtracts. */
  lemma ModSub(x: nat, y: nat, m: nat)
    requires x < m && y < m
    ensures (x + (m - y) % m) % m == if x >= y then x - y else x + m - y
  {
    if y == 0 {
      ModIs(0, 1, m, m);
      ModIs(x, 0, m, x);
    } else {
      ModIs(m - y, 0, m, m - y);
      if x >= y { ModIs(x - y, 1, m, x + m - y); } else { ModIs(x + m - y, 0, m, x + m - y); }
    }
  }

  // ---------------------------------------------------------------- left shift

  /** What a left shift by b bits keeps of limb d in place, and what it moves to the next limb. */
  function Kept(d: U32, b: nat): (r: U32)
    requires b < 32
  {
    d * Pow2(b) % B
  }

  function Moved(d: U32, b: nat): (r: nat)
    requires b < 32
  {
    if b == 0 then 0
    else
      DivMod(d, Pow2(32 - b));
      d / Pow2(32 - b)
  }

  lemma KeptAndMoved(d: U32, b: nat)
    requires b < 32
    ensures d * Pow2(b) == Kept(d, b) + Moved(d, b) * B
    ensures Moved(d, b) < Pow2(b)
    ensures exists y: nat :: Kept(d, b) == y * Pow2(b)
  {
    if b == 0 {
      assert Kept(d, b) == d * Pow2(b);
    } else {
      ShiftSplit(d, b);
      assert Kept(d, b) == d % Pow2(32 - b) * Pow2(b);
    }
  }

  /** Limb m of the shifted number once the source limbs below i are in. */
  function ShlLimb(x: seq<U32>, k: nat, b: nat, i: nat, m: nat): nat
    requires b < 32 && i <= |x|
  {
    (if k <= m < i + k then Kept(x[m - k], b) else 0) + if k < m <= i + k then Moved(x[m - k - 1], b) else 0
  }

  lemma ShlOr(x: seq<U32>, k: nat, b: nat, i: nat)
    requires b < 32 && i < |x|
    ensures Or(ShlLimb(x, k, b, i, i + k), Kept(x[i], b)) == ShlLimb(x, k, b, i + 1, i + k)
    ensures Or(ShlLimb(x, k, b, i, i + k + 1), Moved(x[i], b)) == ShlLimb(x, k, b, i + 1, i + k + 1)
  {
    OrZero(Moved(x[i], b));
    KeptAndMoved(x[i], b);
    var y: nat :| Kept(x[i], b) == y * Pow2(b);
    var h := ShlLimb(x, k, b, i, i + k);
    if i > 0 { KeptAndMoved(x[i - 1], b); }
    OrDisjoint(h, y, b);
  }

  /** The limbs of the shifted number, with what is still on the move, make up the shifted prefix. */
  lemma {:induction false} ShlPrefix(x: seq<U32>, r: seq<U32>, k: nat, b: nat, n: nat)
    requires b < 32 && |r| == |x| && k <= n <= |x|
    requires forall m :: 0 <= m < |x| ==> r[m] == ShlLimb(x, k, b, |x|, m)
    ensures Num(r, n) + (if n == k then 0 else Moved(x[n - k - 1], b)) * Weight(n) == Num(x, n - k) * (Pow2(b) * Weight(k))
  {
    if n == k {
      NumZero(r, 0, k);
    } else {
      ShlPrefix(x, r, k, b, n - 1);
      assert r[n - 1] == ShlLimb(x, k, b, |x|, n - 1);
      ShlStep(x, r, k, b, n - 1, if n - 1 == k then 0 else Moved(x[n - k - 2], b));
    }
  }

  lemma ShlStep(x: seq<U32>, r: seq<U32>, k: nat, b: nat, n: nat, c: nat)
    requires b < 32 && |r| == |x| && k <= n < |x| && r[n] == Kept(x[n - k], b) + c
    requires Num(r, n) + c * Weight(n) == Num(x, n - k) * (Pow2(b) * Weight(k))
    ensures Num(r, n + 1) + Moved(x[n - k], b) * Weight(n + 1) == Num(x, n - k + 1) * (Pow2(b) * Weight(k))
  {
    var d := x[n - k];
    KeptAndMoved(d, b);
    WeightStep(n);
    WeightAdd(n - k, k);
    ShlAlgebra(Num(r, n), c, Kept(d, b), Moved(d, b), d, Pow2(b), Weight(n - k), Weight(k), Weight(n), Num(x, n - k));
  }

  lemma ShlAlgebra(p: nat, c: nat, low: nat, high: nat, d: nat, e: nat, wi: nat, wk: nat, w: nat, x: nat)
    requires w == wi * wk && d * e == low + high * B
    requires p + c * w == x * (e * wk)
    ensures p + (low + c) * w + high * (B * w) == (x + d * wi) * (e * wk)
  {
    var u := e * wk;
    assert (x + d * wi) * u == x * u + d * wi * u;
    assert d * wi * u == d * e * (wi * wk);
    Regroup(high, B, low, w);
    Sum3(low, c, 0, w);
  }

  lemma ShlValue(x: seq<U32>, r: seq<U32>, k: nat, b: nat)
    requires b < 32 && |r| == |x|
    requires forall m :: 0 <= m < |x| ==> r[m] == ShlLimb(x, k, b, |x|, m)
    ensures Value(r) == Value(x) * Pow2(32 * k + b) % Weight(|x|)
  {
    Pow2Add(b, 32 * k);
    if k > |x| {
      NumZero(r, 0, |x|);
      ShlAllOut(Value(x), k, b, |x|);
    } else {
      ShlPrefix(x, r, k, b, |x|);
      ShlPartOut(x, r, k, b, if |x| == k then 0 else Moved(x[|x| - k - 1], b));
    }
  }

  lemma ShlAllOut(v: nat, k: nat, b: nat, n: nat)
    requires k > n
    ensures v * (Pow2(b) * Weight(k)) % Weight(n) == 0
  {
    WeightAdd(k - n, n);
    ShlFar(v, Pow2(b), Weight(k - n), Weight(n));
    ModIs(0, v * Pow2(b) * Weight(k - n), Weight(n), v * (Pow2(b) * Weight(k)));
  }

  lemma ShlPartOut(x: seq<U32>, r: seq<U32>, k: nat, b: nat, c: nat)
    requires k <= |x| == |r|
    requires Value(r) + c * Weight(|x|) == Num(x, |x| - k) * (Pow2(b) * Weight(k))
    ensures Value(r) == Value(x) * (Pow2(b) * Weight(k)) % Weight(|x|)
  {
    var n := |x|;
    NumSplit(x, n - k, n);
    WeightAdd(n - k, k);
    NumBound(r, n);
    ShlCut(Value(r), c, Num(x, n - k), Num(x[n - k..], k), Pow2(b), Weight(k), Weight(n - k), Weight(n), Value(x));
  }

  lemma ShlFar(x: nat, e: nat, wr: nat, m: nat)
    ensures x * (e * (wr * m)) == x * e * wr * m
  {
    assert x * (e * (wr * m)) == x * e * (wr * m);
  }

  lemma ShlCut(r: nat, c: nat, x: nat, t: nat, e: nat, wk: nat, wr: nat, m: nat, v: nat)
    requires m == wr * wk && r < m && r + c * m == x * (e * wk) && v == x + t * wr
    ensures r == v * (e * wk) % m
  {
    var u := e * wk;
    assert v * u == x * u + t * wr * u;
    assert t * wr * u == t * e * (wr * wk);
    Sum3(c, t * e, 0, m);
    ModIs(r, c + t * e, m, v * u);
  }

  // ---------------------------------------------------------------- right shift

  /** A right shift by b bits: the part of limb d that stays, and the part that moves to the limb below. */
  function Down(d: U32, b: nat): (r: nat)
    requires b < 32
    ensures r <= d
  {
    DivMod(d, Pow2(b));
    MulLe(1, Pow2(b), d / Pow2(b));
    d / Pow2(b)
  }

  function Below(d: U32, b: nat): (r: U32)
    requires b < 32
  {
    if b == 0 then 0 else d * Pow2(32 - b) % B
  }

  lemma DownAndBelow(d: U32, b: nat)
    requires b < 32
    ensures Down(d, b) * Pow2(b) + d % Pow2(b) == d && d % Pow2(b) < Pow2(b)
    ensures Below(d, b) * Pow2(b) == d % Pow2(b) * B
    ensures b > 0 ==> Below(d, b) == d % Pow2(b) * Pow2(32 - b) && Down(d, b) < Pow2(32 - b)
  {
    DivMod(d, Pow2(b));
    if b > 0 {
      ShiftSplit(d, 32 - b);
      Pow32();
      Pow2Add(32 - b, b);
      Regroup(d % Pow2(b), Pow2(32 - b), 0, Pow2(b));
    }
  }

  /** Limb m of the shifted number once the source limbs below i are in. */
  function ShrLimb(x: seq<U32>, k: nat, b: nat, i: nat, m: nat): nat
    requires b < 32 && i <= |x|
  {
    (if m + k < i then Down(x[m + k], b) else 0) + if m + k + 1 < i then Below(x[m + k + 1], b) else 0
  }

  lemma ShrOr(x: seq<U32>, k: nat, b: nat, i: nat)
    requires b < 32 && k <= i < |x|
    ensures Or(ShrLimb(x, k, b, i, i - k), Down(x[i], b)) == ShrLimb(x, k, b, i + 1, i - k)
    ensures k < i ==> Or(ShrLimb(x, k, b, i, i - k - 1), Below(x[i], b)) == ShrLimb(x, k, b, i + 1, i - k - 1)
  {
    OrZero(Down(x[i], b));
    if k < i {
      if b == 0 {
        OrZero(Down(x[i - 1], b));
      } else {
        DownAndBelow(x[i], b);
        DownAndBelow(x[i - 1], b);
        OrDisjoint(Down(x[i - 1], b), x[i] % Pow2(b), 32 - b);
      }
    }
  }

  function Rest(y: seq<U32>, b: nat, i: nat): nat
    requires b < 32
  {
    if i < |y| then y[i] % Pow2(b) else 0
  }

  /** The bits that cross each limb boundary telescope away. */
  lemma {:induction false} ShrPrefix(y: seq<U32>, r: seq<U32>, b: nat, n: nat)
    requires b < 32 && n <= |y| && n <= |r|
    requires forall m :: 0 <= m < n ==> r[m] == ShrLimb(y, 0, b, |y|, m)
    ensures Num(r, n) * Pow2(b) + Rest(y, b, 0) == Num(y, n) + Rest(y, b, n) * Weight(n)
  {
    if n > 0 {
      ShrPrefix(y, r, b, n - 1);
      assert r[n - 1] == ShrLimb(y, 0, b, |y|, n - 1);
      ShrStep(y, r, b, n - 1, Rest(y, b, 0));
    }
  }

  lemma ShrStep(y: seq<U32>, r: seq<U32>, b: nat, n: nat, first: nat)
    requires b < 32 && n < |y| && n < |r| && r[n] == ShrLimb(y, 0, b, |y|, n)
    requires Num(r, n) * Pow2(b) + first == Num(y, n) + Rest(y, b, n) * Weight(n)
    ensures Num(r, n + 1) * Pow2(b) + first == Num(y, n + 1) + Rest(y, b, n + 1) * Weight(n + 1)
  {
    DownAndBelow(y[n], b);
    var z := if n + 1 < |y| then Below(y[n + 1], b) else 0;
    if n + 1 < |y| { DownAndBelow(y[n + 1], b); }
    WeightStep(n);
    ShrAlgebra(Num(r, n), Down(y[n], b), z, Pow2(b), Weight(n), first, Num(y, n), Rest(y, b, n), Rest(y, b, n + 1), y[n]);
  }

  lemma ShrAlgebra(p: nat, down: nat, z: nat, e: nat, w: nat, r0: nat, q: nat, here: nat, next: nat, d: nat)
    requires p * e + r0 == q + here * w && down * e + here == d && z * e == next * B
    ensures (p + (down + z) * w) * e + r0 == q + d * w + next * (B * w)
  {
    assert (p + (down + z) * w) * e == p * e + (down * e) * w + (z * e) * w by {
      Sum3(p, down * w, z * w, e);
      assert down * w * e == down * e * w;
      assert z * w * e == z * e * w;
      Sum3(down, z, 0, w);
    }
    Sum3(down * e, here, 0, w);
    Regroup(next, B, 0, w);
  }

  lemma ShrValue(x: seq<U32>, r: seq<U32>, k: nat, b: nat)
    requires b < 32 && |r| == |x|
    requires forall m :: 0 <= m < |x| ==> r[m] == ShrLimb(x, k, b, |x|, m)
    ensures Value(r) == Value(x) / Pow2(32 * k + b)
  {
    if k >= |x| {
      NumZero(r, 0, |x|);
      NumBound(x, |x|);
      Pow2Grows(32 * |x|, 32 * k + b);
      ModIs(Value(x), 0, Pow2(32 * k + b), Value(x));
    } else {
      ShrNear(x, r, k, b);
    }
  }

  lemma ShrNear(x: seq<U32>, r: seq<U32>, k: nat, b: nat)
    requires b < 32 && |r| == |x| && k < |x|
    requires forall m :: 0 <= m < |x| ==> r[m] == ShrLimb(x, k, b, |x|, m)
    ensures Value(r) == Value(x) / Pow2(32 * k + b)
  {
    var n, y := |x|, x[k..];
    ShrLimbs(x, r, k, b);
    NumSplit(x, k, n);
    NumBound(x, k);
    Pow2Add(b, 32 * k);
    RestBound(y, b);
    ShrTotal(Value(x), Num(x, k), Value(r), Rest(y, b, 0), Pow2(b), Weight(k));
  }

  lemma ShrLimbs(x: seq<U32>, r: seq<U32>, k: nat, b: nat)
    requires b < 32 && |r| == |x| && k < |x|
    requires forall m :: 0 <= m < |x| ==> r[m] == ShrLimb(x, k, b, |x|, m)
    ensures Value(r) * Pow2(b) + Rest(x[k..], b, 0) == Num(x[k..], |x| - k)
  {
    var n, y := |x|, x[k..];
    forall m | 0 <= m < n - k ensures r[m] == ShrLimb(y, 0, b, |y|, m) { }
    ShrPrefix(y, r, b, n - k);
    assert Rest(y, b, n - k) == 0 && 0 * Weight(n - k) == 0;
    NumZero(r, n - k, n);
  }

  lemma RestBound(y: seq<U32>, b: nat)
    requires b < 32
    ensures Rest(y, b, 0) < Pow2(b)
  {
  }

  lemma ShrTotal(x: nat, low: nat, r: nat, rest: nat, e: nat, w: nat)
    requires x == low + (r * e + rest) * w && low < w && rest < e
    ensures 0 < e * w && x / (e * w) == r
  {
    Regroup(r, e, rest, w);
    MulGap(rest, e, w);
    ModIs(low + rest * w, r, e * w, x);
  }

  // ---------------------------------------------------------------- bit length

  lemma {:induction false} BitLenIs(x: nat, n: nat)
    requires x < Pow2(n) && (n > 0 ==> Pow2(n - 1) <= x)
    ensures BitLen(x) == n
  {
    if n > 0 {
      if n > 1 { assert Pow2(n - 2) <= x / 2; }
      BitLenIs(x / 2, n - 1);
    }
  }

  lemma {:induction false} BitLenBounds(x: nat)
    ensures x < Pow2(BitLen(x))
    ensures x > 0 ==> BitLen(x) > 0 && Pow2(BitLen(x) - 1) <= x
  {
    if x > 0 { BitLenBounds(x / 2); }
  }

  /** A number whose top limb has its top bit at b. */
  lemma TopBit(s: seq<U32>, i: nat, b: nat)
    requires i < |s| && Pow2(b) <= s[i] < Pow2(b + 1) && forall j :: i < j < |s| ==> s[j] == 0
    ensures BitLen(Value(s)) == 32 * i + b + 1
  {
    NumZero(s, i + 1, |s|);
    NumBound(s, i);
    var w := Weight(i);
    MulLe(Pow2(b), s[i], w);
    MulGap(s[i], Pow2(b + 1), w);
    Pow2Add(b, 32 * i);
    Pow2Add(b + 1, 32 * i);
    BitLenIs(Value(s), 32 * i + b + 1);
  }

  predicate BitOf(d: U32, b: nat) {
    d / Pow2(b) % 2 == 1
  }

  lemma BitBounds(d: U32, b: nat)
    requires d < Pow2(b + 1)
    ensures BitOf(d, b) <==> Pow2(b) <= d
  {
    var p := Pow2(b);
    if p <= d { ModIs(d - p, 1, p, d); } else { ModIs(d, 0, p, d); }
  }

  // ---------------------------------------------------------------- division

  /** The bits below position t are all clear. */
  ghost predicate LowZero(s: seq<U32>, t: nat) {
    && (forall i :: 0 <= i < t / 32 && i < |s| ==> s[i] == 0)
    && (t / 32 < |s| ==> exists y: nat :: s[t / 32] == y * Pow2(t % 32))
  }

  lemma SetBit(s: seq<U32>, t: seq<U32>, sh: nat)
    requires sh / 32 < |s| == |t| && LowZero(s, sh + 1)
    requires t[sh / 32] == Or(s[sh / 32], Pow2(sh % 32)) && forall i :: 0 <= i < |s| && i != sh / 32 ==> t[i] == s[i]
    ensures Value(t) == Value(s) + Pow2(sh) && LowZero(t, sh)
  {
    var k, j := sh / 32, sh % 32;
    var y := SetBitLimb(s, sh);
    assert t[sh / 32] == y * Pow2(sh % 32);
    BitAdded(s, t, k, j);
  }

  lemma BitAdded(s: seq<U32>, t: seq<U32>, k: nat, j: nat)
    requires k < |s| == |t| && t[k] == s[k] + Pow2(j)
    requires forall i :: 0 <= i < |s| && i != k ==> t[i] == s[i]
    ensures Value(t) == Value(s) + Pow2(32 * k + j)
  {
    assert s[..k] == t[..k];
    NumSame(s, t, k);
    Sum3(s[k], Pow2(j), 0, Weight(k));
    Pow2Add(j, 32 * k);
    NumTail(s, t, k + 1, |s|);
  }

  lemma SetBitLimb(s: seq<U32>, sh: nat) returns (y: nat)
    requires sh / 32 < |s| && LowZero(s, sh + 1)
    ensures Or(s[sh / 32], Pow2(sh % 32)) == s[sh / 32] + Pow2(sh % 32) == y * Pow2(sh % 32)
  {
    var k, j := sh / 32, sh % 32;
    NextPosition(sh);
    if j == 31 {
      OrZero(Pow2(j));
      y := 1;
    } else {
      var z: nat :| s[k] == z * Pow2(j + 1);
      OrDisjoint(Pow2(j), z, j + 1);
      y := 2 * z + 1;
      Regroup(z, 2, 1, Pow2(j));
    }
  }

  lemma NextPosition(sh: nat)
    ensures if sh % 32 == 31 then (sh + 1) / 32 == sh / 32 + 1
            else (sh + 1) / 32 == sh / 32 && (sh + 1) % 32 == sh % 32 + 1
  {
  }

  /** One round of shift-and-subtract; `on` tells whether the bit is set. */
  lemma DivStep(q: nat, d: nat, num: nat, n: nat, sh: nat, on: bool)
    requires q * d + num == n && num < d * Pow2(sh + 1) && on == (num >= d * Pow2(sh))
    ensures var q', num' := if on then q + Pow2(sh) else q, if on then num - d * Pow2(sh) else num;
            q' * d + num' == n && num' < d * Pow2(sh)
  {
    var p := Pow2(sh);
    assert d * (2 * p) == 2 * (d * p);
    if on { assert (q + p) * d == q * d + d * p; }
  }

  lemma LowZeroBelow(s: seq<U32>, sh: nat)
    requires LowZero(s, sh + 1)
    ensures LowZero(s, sh)
  {
    var k, j := sh / 32, sh % 32;
    NextPosition(sh);
    if k < |s| {
      if j == 31 {
        assert s[k] == 0 * Pow2(j);
      } else {
        var z: nat :| s[k] == z * Pow2(j + 1);
        Regroup(z, 2, 0, Pow2(j));
        assert s[k] == 2 * z * Pow2(j);
      }
    }
  }

  lemma LowZeroAll(s: seq<U32>, t: nat)
    requires forall i :: 0 <= i < |s| ==> s[i] == 0
    ensures LowZero(s, t)
  {
    if t / 32 < |s| { assert s[t / 32] == 0 * Pow2(t % 32); }
  }

  lemma HalvesEvenly(d: nat, sh: nat)
    requires sh > 0
    ensures d * Pow2(sh) / Pow2(1) == d * Pow2(sh - 1)
  {
    assert Pow2(1) == 2;
    assert d * Pow2(sh) == 2 * (d * Pow2(sh - 1));
  }

  /** Shifting the divisor up to the length of the dividend loses nothing and leaves at most one bit of quotient. */
  lemma Aligned(n: nat, d: nat, width: nat)
    requires 0 < d && n < Weight(width) && BitLen(d) <= BitLen(n)
    ensures var sh := BitLen(n) - BitLen(d);
            sh < 32 * width && d * Pow2(sh) % Weight(width) == d * Pow2(sh) && n < d * Pow2(sh + 1)
  {
    var a, b := BitLen(n), BitLen(d);
    var sh: nat := a - b;
    BitLenBounds(n);
    BitLenBounds(d);
    AlignedBounds(n, d, a, b);
    if a > 32 * width { Pow2Grows(32 * width, a - 1); }
    Pow2Grows(a, 32 * width);
    ModIs(d * Pow2(sh), 0, Weight(width), d * Pow2(sh));
  }

  lemma AlignedBounds(n: nat, d: nat, a: nat, b: nat)
    requires 0 < b <= a && n < Pow2(a) && Pow2(b - 1) <= d < Pow2(b)
    ensures d * Pow2(a - b) < Pow2(a) && n < d * Pow2(a - b + 1)
  {
    Pow2Add(b, a - b);
    MulGap(d, Pow2(b), Pow2(a - b));
    Pow2Add(b - 1, a - b + 1);
    MulLe(Pow2(b - 1), d, Pow2(a - b + 1));
  }

  lemma Shorter(n: nat, d: nat)
    requires BitLen(d) > BitLen(n)
    ensures d > 0 && n / d == 0
  {
    BitLenBounds(n);
    BitLenBounds(d);
    Pow2Grows(BitLen(n), BitLen(d) - 1);
    ModIs(n, 0, d, n);
  }

  lemma TwoLimbs(s: seq<U32>)
    requires |s| >= 2
    ensures Num(s, 2) == s[0] + s[1] * B && Weight(2) == B * B
  {
    WeightStep(0);
    WeightStep(1);
    assert Num(s, 1) == s[0] * 1;
  }

  lemma LowTwo(s: seq<U32>)
    requires |s| >= 2
    ensures Num(s, 2) < B * B && Value(s) % (B * B) == Num(s, 2)
  {
    TwoLimbs(s);
    NumBound(s, 2);
    NumSplit(s, 2, |s|);
    ModIs(Num(s, 2), Num(s[2..], |s| - 2), B * B, Value(s));
  }
}
