/** The amount compression of src/compressor.cpp:148-200, in 64-bit arithmetic. */
module Amounts {
  import opened Basics

  // ---------------------------------------------------------------- on unbounded numbers

  function TenTo(e: nat): (p: nat)
    ensures p > 0
  {
    if e == 0 then 1 else 10 * TenTo(e - 1)
  }

  /** Lines 161-165: trailing zeros, at most up to nine of them, counted from e on. */
  function Strip(n: nat, e: nat): (r: (nat, nat))
    requires n > 0 && e <= 9
    ensures r.0 > 0 && e <= r.1 <= 9 && (r.1 < 9 ==> r.0 % 10 != 0)
    decreases 9 - e
  {
    if n % 10 == 0 && e < 9 then Strip(n / 10, e + 1) else (n, e)
  }

  /** The output for mantissa n and exponent e. */
  function Combined(n: nat, e: nat): nat
    requires n > 0 && e <= 9
  {
    if e < 9 then 1 + (n / 10 * 9 + n % 10 - 1) * 10 + e else 1 + (n - 1) * 10 + 9
  }

  /** Lines 157-174 without overflow. */
  function CompressAmount(n: nat): nat {
    if n == 0 then 0
    else
      var (m, e) := Strip(n, 0);
      Combined(m, e)
  }

  /** Lines 181-194: the mantissa and exponent of a positive output. */
  function Split(x: nat): (nat, nat)
    requires x > 0
  {
    var e, y := (x - 1) % 10, (x - 1) / 10;
    (if e < 9 then y / 9 * 10 + (y % 9 + 1) else y + 1, e)
  }

  /** Lines 176-200 without overflow. */
  function DecompressAmount(x: nat): nat {
    if x == 0 then 0 else Split(x).0 * TenTo(Split(x).1)
  }

  lemma {:induction false} StripValue(n: nat, e: nat)
    requires n > 0 && e <= 9
    ensures Strip(n, e).0 * TenTo(Strip(n, e).1) == n * TenTo(e)
    decreases 9 - e
  {
    if n % 10 == 0 && e < 9 {
      StripValue(n / 10, e + 1);
      Moved(n / 10, TenTo(e));
    }
  }

  lemma Moved(q: nat, p: nat)
    ensures q * (10 * p) == 10 * q * p
  {
  }

  /** Stripping finds the same mantissa again. */
  lemma {:induction false} StripBack(m: nat, e: nat, k: nat)
    requires m > 0 && k <= e <= 9 && (e < 9 ==> m % 10 != 0)
    ensures m * TenTo(e - k) > 0 && Strip(m * TenTo(e - k), k) == (m, e)
    decreases e - k
  {
    if k < e {
      var n := m * TenTo(e - k - 1);
      assert m * TenTo(e - k) == 10 * n by { assert m * (10 * TenTo(e - k - 1)) == 10 * (m * TenTo(e - k - 1)); }
      StripBack(m, e, k + 1);
    }
  }

  lemma SplitCombined(m: nat, e: nat)
    requires m > 0 && e <= 9 && (e < 9 ==> m % 10 != 0)
    ensures Combined(m, e) > 0 && Split(Combined(m, e)) == (m, e)
  {
  }

  lemma CombinedSplit(x: nat)
    requires x > 0
    ensures var (m, e) := Split(x);
            m > 0 && e <= 9 && (e < 9 ==> m % 10 != 0) && Combined(m, e) == x
  {
    var e, y := (x - 1) % 10, (x - 1) / 10;
    if e < 9 { LastDigit(y / 9, y % 9 + 1); }
  }

  lemma LastDigit(q: nat, d: nat)
    requires d < 10
    ensures (q * 10 + d) / 10 == q && (q * 10 + d) % 10 == d
  {
  }

  /** Without overflow the two would be mutually inverse bijections. */
  lemma IdealRoundTrip(n: nat)
    ensures DecompressAmount(CompressAmount(n)) == n && CompressAmount(DecompressAmount(n)) == n
  {
    if n > 0 {
      var (m, e) := Strip(n, 0);
      SplitCombined(m, e);
      StripValue(n, 0);
      CombinedSplit(n);
      StripBack(Split(n).0, Split(n).1, 0);
    }
  }

  /** A multiple of ten has a code no larger than itself, any other number one of about nine times its size. */
  lemma CodeBound(n: nat)
    requires n > 0
    ensures n % 10 == 0 ==> CompressAmount(n) <= n
    ensures n % 10 != 0 ==> CompressAmount(n) == 9 * n + n % 10 - 9
  {
    if n % 10 == 0 {
      var (m, e) := Strip(n, 0);
      StripValue(n, 0);
      assert e >= 1;
      Tenfold(m, e);
      CombinedBound(m, e);
    }
  }

  lemma Tenfold(m: nat, e: nat)
    requires e >= 1
    ensures 10 * m <= m * TenTo(e)
  {
    assert m * (10 * TenTo(e - 1)) == 10 * (m * TenTo(e - 1));
    assert m <= m * TenTo(e - 1) by { assert m * 1 <= m * TenTo(e - 1); }
  }

  lemma CombinedBound(m: nat, e: nat)
    requires m > 0 && e <= 9 && (e < 9 ==> m % 10 != 0)
    ensures Combined(m, e) <= 10 * m
  {
    assert m / 10 * 10 + m % 10 == m;
  }

  // ---------------------------------------------------------------- in 64 bits

  /** The largest amount, not a multiple of ten, whose code fits 64 bits. */
  const LAST_SAFE: nat := 2049638230412172402

  function Wrap(x: int): U64 { x % TWO_64 }

  function Compress64(n: U64): U64 { Wrap(CompressAmount(n)) }

  function Decompress64(x: U64): U64 { Wrap(DecompressAmount(x)) }

  /** Exactly these amounts overflow. */
  lemma OverflowExact(n: U64)
    ensures CompressAmount(n) >= TWO_64 <==> n % 10 != 0 && n > LAST_SAFE
  {
    if n > 0 { CodeBound(n); }
  }

  lemma WrappedCode(n: U64, k: nat, e: nat, h: nat, y: int)
    requires n % 10 != 0 && (9 * n + n % 10 - 9) / TWO_64 == k && e < 9 && k * TWO_64 + e == 10 * h
    requires y == 9 * (n / 10) + n % 10 - 1 - h
    ensures y >= 0 && Compress64(n) == 10 * y + 1 + e
  {
    CodeBound(n);
    var c := 9 * n + n % 10 - 9;
    assert c == 90 * (n / 10) + 10 * (n % 10) - 9;
    assert Wrap(c) == c - k * TWO_64;
  }

  lemma SplitAt(x: nat, y: nat, e: nat)
    requires x == 10 * y + 1 + e && e < 9
    ensures Split(x) == (y / 9 * 10 + (y % 9 + 1), e)
  {
    assert (x - 1) / 10 == y && (x - 1) % 10 == e;
  }

  /** How a code that wrapped around k times is taken apart: with the exponent of k, and a mantissa off by a constant. */
  lemma WrappedSplit(n: U64, k: nat, e: nat, a: nat, b: nat)
    requires n % 10 != 0 && (9 * n + n % 10 - 9) / TWO_64 == k && e < 9 && b < 9 && k * TWO_64 + e == 10 * (9 * a + b)
    ensures var x := Compress64(n);
            && x > 0 && Split(x).1 == e && 10 * a + b + 1 <= n
            && (Split(x).0 == n - (10 * a + b) || Split(x).0 == n - (10 * a + b + 1))
  {
    var q, d := n / 10, n % 10;
    var y := 9 * q + d - 1 - (9 * a + b);
    WrappedCode(n, k, e, 9 * a + b, y);
    SplitAt(Compress64(n), y, e);
    NinthOf(q - a, d - 1 - b, y);
  }

  lemma NinthOf(p: int, r: int, y: nat)
    requires y == 9 * p + r && -9 < r < 9
    ensures y / 9 * 10 + (y % 9 + 1) == 10 * p + r + 1 || y / 9 * 10 + (y % 9 + 1) == 10 * p + r
  {
    if r >= 0 { assert y / 9 == p; } else { assert y / 9 == p - 1; }
  }

  /** The one number that (n - c) t returns to modulo 2^64, given the inverse i of t - 1. */
  lemma ReturnsTo(n: U64, c: nat, t: nat, i: nat, j: nat)
    requires c <= n && t > 0 && (t - 1) * i == 1 + j * TWO_64 && Wrap((n - c) * t) == n
    ensures n == Wrap(c * t * i)
  {
    var s := (n - c) * t / TWO_64;
    assert (n - c) * t == s * TWO_64 + n;
    Inverted(n, c, t, i, j, s, TWO_64);
    Shifted(n, n * j - s * i);
  }

  lemma Inverted(n: int, c: int, t: int, i: int, j: int, s: int, w: int)
    requires (t - 1) * i == 1 + j * w && (n - c) * t == s * w + n
    ensures c * t * i == n + w * (n * j - s * i)
  {
    assert n * (t - 1) == s * w + c * t;
    assert n * ((t - 1) * i) == (s * w + c * t) * i by { assert n * (t - 1) * i == n * ((t - 1) * i); }
    assert n * (1 + j * w) == n + w * (n * j);
    assert (s * w + c * t) * i == w * (s * i) + c * t * i;
    assert w * (n * j - s * i) == w * (n * j) - w * (s * i);
  }

  lemma Shifted(x: int, k: int)
    ensures Wrap(x + TWO_64 * k) == Wrap(x)
  {
  }

  /** A code that wrapped around k times is not read back: the numbers that would be lie elsewhere. */
  lemma NeverBack(n: U64, k: nat, e: nat, t: nat, a: nat, b: nat, i: nat, j: nat, n0: nat, n1: nat)
    requires n % 10 != 0 && (9 * n + n % 10 - 9) / TWO_64 == k
    requires e < 9 && b < 9 && k * TWO_64 + e == 10 * (9 * a + b) && t == TenTo(e) && (t - 1) * i == 1 + j * TWO_64
    requires n0 == Wrap((10 * a + b) * t * i) && n1 == Wrap((10 * a + b + 1) * t * i)
    requires (9 * n0 + n0 % 10 - 9) / TWO_64 != k && (9 * n1 + n1 % 10 - 9) / TWO_64 != k
    ensures Decompress64(Compress64(n)) != n
  {
    WrappedSplit(n, k, e, a, b);
    if Decompress64(Compress64(n)) == n {
      if Split(Compress64(n)).0 == n - (10 * a + b) {
        ReturnsTo(n, 10 * a + b, t, i, j);
      } else {
        ReturnsTo(n, 10 * a + b + 1, t, i, j);
      }
    }
  }

  lemma Lost1(n: U64)
    requires n % 10 != 0 && (9 * n + n % 10 - 9) / TWO_64 == 1
    ensures Decompress64(Compress64(n)) != n
  {
    NeverBack(n, 1, 4, 10000, 204963823041217240, 2, 13458245626333751279, 7295, 15288550632769423584, 10300052185393623248);
  }

  lemma Lost2(n: U64)
    requires n % 10 != 0 && (9 * n + n % 10 - 9) / TWO_64 == 2
    ensures Decompress64(Compress64(n)) != n
  {
    NeverBack(n, 2, 8, 100000000, 409927646082434480, 4, 300153063250403071, 1627133, 14480868974329830400, 14781022037580233472);
  }

  lemma Lost3(n: U64)
    requires n % 10 != 0 && (9 * n + n % 10 - 9) / TWO_64 == 3
    ensures Decompress64(Compress64(n)) != n
  {
    NeverBack(n, 3, 2, 100, 614891469123651720, 5, 12670490878911611211, 68, 1925417731599313468, 14595908610510924680);
  }

  lemma Lost4(n: U64)
    requires n % 10 != 0 && (9 * n + n % 10 - 9) / TWO_64 == 4
    ensures Decompress64(Compress64(n)) != n
  {
    NeverBack(n, 4, 6, 1000000, 819855292164868960, 7, 1672254362768354751, 90653, 14161661572577611840, 15833915935345966592);
  }

  lemma Lost6(n: U64)
    requires n % 10 != 0 && (9 * n + n % 10 - 9) / TWO_64 == 6
    ensures Decompress64(Compress64(n)) != n
  {
    NeverBack(n, 6, 4, 10000, 1229782938247303441, 1, 13458245626333751279, 7295, 4486081875444583760, 17944327501778335040);
  }

  lemma Lost7(n: U64)
    requires n % 10 != 0 && (9 * n + n % 10 - 9) / TWO_64 == 7
    ensures Decompress64(Compress64(n)) != n
  {
    NeverBack(n, 7, 8, 100000000, 1434746761288520681, 3, 300153063250403071, 1627133, 4266028162630124288, 4566181225880527360);
  }

  lemma Lost8(n: U64)
    requires n % 10 != 0 && (9 * n + n % 10 - 9) / TWO_64 == 8
    ensures Decompress64(Compress64(n)) != n
  {
    NeverBack(n, 8, 2, 100, 1639710584329737921, 4, 12670490878911611211, 68, 7432526512302726184, 1656273317504785780);
  }

  /** After five rounds the exponent is zero, and the mantissa is not the amount. */
  lemma Lost5(n: U64)
    requires n % 10 != 0 && (9 * n + n % 10 - 9) / TWO_64 == 5
    ensures Decompress64(Compress64(n)) != n
  {
    WrappedSplit(n, 5, 0, 1024819115206086200, 8);
  }

  lemma Lost(n: U64)
    requires n % 10 != 0 && n > LAST_SAFE
    ensures Decompress64(Compress64(n)) != n
  {
    var k := (9 * n + n % 10 - 9) / TWO_64;
    assert 1 <= k <= 8;
    if k == 1 { Lost1(n); }
    else if k == 2 { Lost2(n); }
    else if k == 3 { Lost3(n); }
    else if k == 4 { Lost4(n); }
    else if k == 5 { Lost5(n); }
    else if k == 6 { Lost6(n); }
    else if k == 7 { Lost7(n); }
    else { Lost8(n); }
  }

  lemma WrapSmall(x: nat)
    requires x < TWO_64
    ensures Wrap(x) == x
  {
  }

  lemma Kept(n: U64, x: nat)
    requires x < TWO_64 && CompressAmount(n) == x && DecompressAmount(x) == n
    ensures Compress64(n) == x && Decompress64(x) == n
  {
    WrapSmall(x);
    WrapSmall(n);
  }

  lemma Safe(n: U64)
    requires n % 10 == 0 || n <= LAST_SAFE
    ensures Compress64(n) == CompressAmount(n) && Decompress64(Compress64(n)) == n
  {
    OverflowExact(n);
    IdealRoundTrip(n);
    Kept(n, CompressAmount(n));
  }

  /** Main result: an amount comes back exactly if it is a multiple of ten or no larger than LAST_SAFE. */
  lemma AmountRoundTrip(n: U64)
    ensures Decompress64(Compress64(n)) == n <==> n % 10 == 0 || n <= LAST_SAFE
  {
    if n % 10 == 0 || n <= LAST_SAFE { Safe(n); } else { Lost(n); }
  }

  /** A code comes back exactly if the amount it stands for fits 64 bits. */
  lemma CodeRoundTrip(x: U64)
    ensures Compress64(Decompress64(x)) == x <==> DecompressAmount(x) < TWO_64
  {
    IdealRoundTrip(x);
    if DecompressAmount(x) < TWO_64 {
      Kept(DecompressAmount(x), x);
    } else if Compress64(Decompress64(x)) == x {
      SameAmount(x, Decompress64(x));
    }
  }

  lemma SameAmount(x: U64, n: U64)
    requires n == Decompress64(x) && x == Compress64(n)
    ensures DecompressAmount(x) == n
  {
    AmountRoundTrip(n);
    Safe(n);
    IdealRoundTrip(n);
  }

  /** The smallest amount that is lost: it is stored as 5 and read back as 10000. */
  lemma AmountLost()
    ensures Compress64(LAST_SAFE + 1) == 5 && Decompress64(5) == 10000
  {
    CodeOverflows(LAST_SAFE + 1);
    Shifted(5, 1);
    FiveStands();
  }

  lemma CodeOverflows(n: nat)
    requires n == LAST_SAFE + 1
    ensures CompressAmount(n) == TWO_64 + 5
  {
    CodeBound(n);
  }

  lemma FiveStands()
    ensures DecompressAmount(5) == 10000
  {
    SplitAt(5, 0, 4);
    assert TenTo(2) == 100 && TenTo(4) == 10 * TenTo(3);
  }

  // ---------------------------------------------------------------- the loops

  lemma WrapTimes(a: int, p: int)
    ensures Wrap(Wrap(a) * p) == Wrap(a * p)
  {
    var q := a / TWO_64;
    assert Wrap(a) * p == a * p + TWO_64 * (-q * p) by {
      assert Wrap(a) == a - TWO_64 * q;
      assert (a - TWO_64 * q) * p == a * p - TWO_64 * (q * p);
    }
    Shifted(a * p, -q * p);
  }

  lemma WrapPlus(a: int, b: int)
    ensures Wrap(Wrap(a) + b) == Wrap(a + b)
  {
    Shifted(a + b, -(a / TWO_64));
  }

  lemma WrapCombined(q: nat, d: nat, e: nat)
    ensures Wrap(1 + Wrap(Wrap(Wrap(q * 9) + d - 1) * 10) + e) == Wrap(1 + (q * 9 + d - 1) * 10 + e)
  {
    WrapPlus(q * 9, d - 1);
    WrapTimes(q * 9 + d - 1, 10);
    WrapPlus((q * 9 + d - 1) * 10, 1 + e);
  }

  /** Lines 157-174, every operation modulo 2^64. */
  method RunCompressAmount(n: U64) returns (x: U64)
    ensures x == Compress64(n)
  {
    if n == 0 { return 0; }
    var m, e := n, 0;
    while m % 10 == 0 && e < 9
      invariant 0 < m < TWO_64 && 0 <= e <= 9 && Strip(m, e) == Strip(n, 0)
      decreases 9 - e
    {
      m := m / 10;
      e := e + 1;
    }
    if e < 9 {
      var d := m % 10;
      assert 1 <= d <= 9;
      m := m / 10;
      x := Wrap(1 + Wrap(Wrap(Wrap(m * 9) + d - 1) * 10) + e);
      WrapCombined(m, d, e);
    } else {
      x := Wrap(1 + Wrap((m - 1) * 10) + 9);
      WrapPlus((m - 1) * 10, 10);
    }
  }

  /** Lines 195-198. */
  method TimesTens(n: U64, e: nat) returns (r: U64)
    ensures r == Wrap(n * TenTo(e))
  {
    r := n;
    var left := e;
    while left > 0
      invariant Wrap(r * TenTo(left)) == Wrap(n * TenTo(e))
    {
      WrapTimes(r * 10, TenTo(left - 1));
      assert r * (10 * TenTo(left - 1)) == r * 10 * TenTo(left - 1);
      r := Wrap(r * 10);
      left := left - 1;
    }
    assert r * 1 == r;
  }

  /** Lines 176-200, every operation modulo 2^64. */
  method RunDecompressAmount(x: U64) returns (n: U64)
    ensures n == Decompress64(x)
  {
    if x == 0 { return 0; }
    var y := x - 1;
    var e := y % 10;
    y := y / 10;
    if e < 9 {
      var d := y % 9 + 1;
      y := y / 9;
      n := Wrap(Wrap(y * 10) + d);
      WrapPlus(y * 10, d);
    } else {
      n := Wrap(y + 1);
    }
    assert n == Wrap(Split(x).0);
    WrapTimes(Split(x).0, TenTo(e));
    n := TimesTens(n, e);
  }
}
