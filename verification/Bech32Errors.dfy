/** What src/bech32.cpp promises of its checksum: up to three wrong symbols within a window of 1023 are detected. */
module Bech32Errors {
  import opened Basics
  import opened BitXor
  import opened Checksum
  import opened Bech32
  import opened Roots
  import opened Bch

  /** u and v have the same length and differ at most at i, j and k. */
  predicate Differ3<G(==)>(u: seq<G>, v: seq<G>, i: nat, j: nat, k: nat) {
    |u| == |v| && forall t :: 0 <= t < |u| && t != i && t != j && t != k ==> u[t] == v[t]
  }

  lemma WindowIs<G(!new)>(r: Ring<G>, u: seq<G>, v: seq<G>, i: nat, j: nat, k: nat)
    requires Additive(r) && i < j < k < |u| && Differ3(u, v, i, j, k)
    ensures Sum(r, u[i..k + 1], v[i..k + 1])
         == [r.plus(u[i], v[i])] + (Zeros(r, j - i - 1) + [r.plus(u[j], v[j])]) + (Zeros(r, k - j - 1) + [r.plus(u[k], v[k])])
  {
    var x, y := Zeros(r, j - i - 1) + [r.plus(u[j], v[j])], Zeros(r, k - j - 1) + [r.plus(u[k], v[k])];
    var w, z := Sum(r, u[i..k + 1], v[i..k + 1]), [r.plus(u[i], v[i])] + x + y;
    forall t | 0 <= t < |w| ensures w[t] == z[t] {
      assert w[t] == r.plus(u[i + t], v[i + t]);
    }
  }

  function ThreeSum<G(!new)>(r: Ring<G>, m: nat, n: nat, a: G, b: G, c: G): G {
    r.plus(Pow(r, n, r.plus(Pow(r, m, a), b)), c)
  }

  lemma ThreeWindow<G(!new)>(r: Ring<G>, u: seq<G>, v: seq<G>, i: nat, j: nat, k: nat, m: nat, n: nat)
    requires Additive(r) && 0 < m && 0 < n && j == i + m && k == j + n < |u| && Differ3(u, v, i, j, k)
    ensures Feed(r, r.zero, Sum(r, u[i..k + 1], v[i..k + 1]))
         == ThreeSum(r, m, n, r.plus(u[i], v[i]), r.plus(u[j], v[j]), r.plus(u[k], v[k]))
  {
    WindowIs(r, u, v, i, j, k);
    FeedThree(r, m, n, r.plus(u[i], v[i]), r.plus(u[j], v[j]), r.plus(u[k], v[k]));
  }

  /** The three differences of sequences with the same remainder cancel. */
  lemma ThreeCancel<G(!new)>(r: Ring<G>, small: G -> bool, o: G, u: seq<G>, v: seq<G>, i: nat, j: nat, k: nat, m: nat, n: nat)
    requires Additive(r) && Invertible(r, small) && 0 < m && 0 < n && j == i + m && k == j + n < |u| && Differ3(u, v, i, j, k)
    requires Feed(r, o, u) == Feed(r, o, v) && small(Feed(r, r.zero, Sum(r, u[i..k + 1], v[i..k + 1])))
    ensures ThreeSum(r, m, n, r.plus(u[i], v[i]), r.plus(u[j], v[j]), r.plus(u[k], v[k])) == r.zero
  {
    ThreeWindow(r, u, v, i, j, k, m, n);
    assert u[..i] == v[..i] && u[k + 1..] == v[k + 1..];
    DifferenceVanishes(r, small, o, u, v, i, k + 1);
  }

  lemma SumSmall(u: Bytes, v: Bytes)
    requires |u| == |v|
    ensures Small(Feed(Gf(), 0, Sum(Gf(), u, v)))
  {
    var w := Sum(Gf(), u, v);
    Powers();
    forall t | 0 <= t < |w| ensures w[t] < 0x4000_0000 { XorBound(u[t], v[t], 30); }
    FeedBound(0, w);
  }

  lemma SymbolDifference(a: nat, x: nat)
    requires a < 32 && x < 32
    ensures Xor(a, x) < 32
  {
    Powers();
    XorBound(a, x, 5);
  }

  lemma DifferencesVanish(a: nat, b: nat, c: nat, x: nat, y: nat, z: nat, p: nat, q: nat, s: nat, m: nat, n: nat)
    requires 0 < m && 0 < n && m + n < 1023 && a < 32 && b < 32 && c < 32 && x < 32 && y < 32 && z < 32
    requires p == Xor(a, x) && q == Xor(b, y) && s == Xor(c, z) && Three(m, n, p, q, s) == 0
    ensures a == x && b == y && c == z
  {
    SymbolDifference(a, x);
    SymbolDifference(b, y);
    SymbolDifference(c, z);
    ThreeSymbols(m, n, p, q, s);
    SameSymbol(a, x);
    SameSymbol(b, y);
    SameSymbol(c, z);
  }

  lemma ErrorsCancel(u: Bytes, v: Bytes, i: nat, j: nat, k: nat, m: nat, n: nat)
    requires 0 < m && 0 < n && j == i + m && k == j + n < |u| && Differ3(u, v, i, j, k) && PolyMod(u) == PolyMod(v)
    ensures Three(m, n, Xor(u[i], v[i]), Xor(u[j], v[j]), Xor(u[k], v[k])) == 0
  {
    GfAdditive();
    GfInvertible();
    SumSmall(u[i..k + 1], v[i..k + 1]);
    ThreeCancel(Gf(), Small, 1, u, v, i, j, k, m, n);
  }

  lemma ErrorsVanish(u: Bytes, v: Bytes, i: nat, j: nat, k: nat, m: nat, n: nat)
    requires 0 < m && 0 < n && j == i + m && k == j + n < |u| && Differ3(u, v, i, j, k) && PolyMod(u) == PolyMod(v)
    requires m + n < 1023 && u[i] < 32 && v[i] < 32 && u[j] < 32 && v[j] < 32 && u[k] < 32 && v[k] < 32
    ensures u[i] == v[i] && u[j] == v[j] && u[k] == v[k]
  {
    ErrorsCancel(u, v, i, j, k, m, n);
    DifferencesVanish(u[i], u[j], u[k], v[i], v[j], v[k], Xor(u[i], v[i]), Xor(u[j], v[j]), Xor(u[k], v[k]), m, n);
  }

  /** Sequences that leave the same remainder and differ at three places within 1023 symbols are equal. */
  lemma ThreeErrors(u: Bytes, v: Bytes, i: nat, j: nat, k: nat)
    requires i < j < k < |u| && k - i < 1023 && Differ3(u, v, i, j, k) && PolyMod(u) == PolyMod(v)
    requires u[i] < 32 && v[i] < 32 && u[j] < 32 && v[j] < 32 && u[k] < 32 && v[k] < 32
    ensures u == v
  {
    ErrorsVanish(u, v, i, j, k, j - i, k - j);
  }

  // ---------------------------------------------------------------- up to three wrong symbols

  /** Where two sequences of the same length differ. */
  function Places(x: Bytes, y: Bytes): set<nat>
    requires |x| == |y|
  {
    set t: nat | t < |x| && x[t] != y[t]
  }

  lemma PlaceIs(x: Bytes, y: Bytes, t: nat)
    requires |x| == |y| && t < |x|
    ensures t in Places(x, y) <==> x[t] != y[t]
  {
  }

  /** Symbols with the same remainder after the same prefix. */
  predicate Alike(h: Bytes, x: Bytes, y: Bytes) {
    |x| == |y| && Symbols(x) && Symbols(y) && PolyMod(h + x) == PolyMod(h + y)
  }

  lemma AfterPrefix(h: Bytes, x: Bytes, y: Bytes)
    requires h + x == h + y
    ensures x == y
  {
    assert x == (h + x)[|h|..] && y == (h + y)[|h|..];
  }

  lemma ThreePlaces(h: Bytes, x: Bytes, y: Bytes, i: nat, j: nat, k: nat)
    requires Alike(h, x, y) && i < j < k < |x| && k - i < 1023 && Differ3(x, y, i, j, k)
    ensures x == y
  {
    ThreeErrors(h + x, h + y, |h| + i, |h| + j, |h| + k);
    AfterPrefix(h, x, y);
  }

  lemma Neighbours(h: Bytes, x: Bytes, y: Bytes, i: nat)
    requires Alike(h, x, y) && i < |x| && Differ3(x, y, i, i + 1, i + 1)
    ensures x == y
  {
    var a, b := |h| + i, if i + 1 < |x| then |h| + i + 2 else |h| + i + 1;
    var u, v := h + x, h + y;
    assert u[..a] == v[..a] && u[b..] == v[b..];
    assert Symbols(u[a..b]) && Symbols(v[a..b]);
    BurstDetected(u, v, a, b);
    AfterPrefix(h, x, y);
  }

  lemma TwoPlaces(h: Bytes, x: Bytes, y: Bytes, i: nat, j: nat)
    requires Alike(h, x, y) && i < j < |x| && j - i < 1023 && Differ3(x, y, i, j, j)
    ensures x == y
  {
    if j == i + 1 {
      Neighbours(h, x, y, i);
    } else {
      ThreePlaces(h, x, y, i, i + 1, j);
    }
  }

  lemma Listed(s: set<nat>) returns (i: nat, j: nat, k: nat)
    requires 0 < |s| <= 3
    ensures i <= j <= k && s == {i, j, k}
  {
    var a :| a in s;
    var t := s - {a};
    var b := a;
    if t != {} { b :| b in t; }
    var w := t - {b};
    var c := a;
    if w != {} { c :| c in w; }
    assert w - {c} == {} by { if w != {} { assert |w - {c}| == 0; } }
    assert s == {a, b, c};
    i, j, k := a, b, c;
    if i > j { i, j := j, i; }
    if j > k { j, k := k, j; }
    if i > j { i, j := j, i; }
  }

  /** Up to three wrong symbols within 1023 change the remainder, after any prefix. */
  lemma FewErrors(h: Bytes, x: Bytes, y: Bytes)
    requires Alike(h, x, y) && |Places(x, y)| <= 3
    requires forall s, t :: s in Places(x, y) && t in Places(x, y) ==> t - s < 1023
    ensures x == y
  {
    var d := Places(x, y);
    forall t | 0 <= t < |x| && t !in d ensures x[t] == y[t] { PlaceIs(x, y, t); }
    if d != {} {
      var i, j, k := Listed(d);
      assert i in d && j in d && k in d;
      assert Differ3(x, y, i, j, k);
      if i == k {
        Neighbours(h, x, y, i);
      } else if i == j || j == k {
        TwoPlaces(h, x, y, i, k);
      } else {
        ThreePlaces(h, x, y, i, j, k);
      }
    }
  }

  /** After up to three substitutions within 1023 symbols a good checksum is good only if nothing changed. */
  lemma SubstitutionsDetected(hrp: Bytes, x: Bytes, y: Bytes)
    requires |x| == |y| && Symbols(x) && Symbols(y) && VerifyChecksum(hrp, x) && |Places(x, y)| <= 3
    requires forall s, t :: s in Places(x, y) && t in Places(x, y) ==> t - s < 1023
    ensures VerifyChecksum(hrp, y) <==> x == y
  {
    if VerifyChecksum(hrp, y) { FewErrors(ExpandHrp(hrp), x, y); }
  }

  // ---------------------------------------------------------------- strings

  lemma SameCharacter(a: Byte, b: Byte)
    requires RevOf(a) != -1 && RevOf(b) != -1
    ensures RevOf(a) == RevOf(b) <==> LowerCase(a) == LowerCase(b)
  {
    CharRev(a);
    CharRev(b);
  }

  lemma SamePlaces(x: Bytes, y: Bytes)
    requires |x| == |y| && Readable(x) && Readable(y)
    ensures Places(Values(x), Values(y)) == Places(Lowered(x), Lowered(y))
  {
    forall t: nat | t < |x| ensures Values(x)[t] == Values(y)[t] <==> Lowered(x)[t] == Lowered(y)[t] {
      SameCharacter(x[t], y[t]);
    }
  }

  lemma PlacesWithin(x: Bytes, y: Bytes, n: nat)
    requires |x| == |y| <= n
    ensures forall s, t :: s in Places(x, y) && t in Places(x, y) ==> t - s < n
  {
  }

  /** Two accepted strings with the same prefix do not differ in just one, two or three of the characters behind it. */
  lemma MistypedRejected(s: Bytes, t: Bytes, pos: nat)
    requires Decode(s).Some? && Decode(t).Some? && |s| == |t| && pos == LastOne(s) == LastOne(t)
    requires Lowered(s[..pos]) == Lowered(t[..pos]) && |Places(Lowered(s[pos + 1..]), Lowered(t[pos + 1..]))| <= 3
    ensures Lowered(s) == Lowered(t)
  {
    var a, b := s[pos + 1..], t[pos + 1..];
    SamePlaces(a, b);
    PlacesWithin(Values(a), Values(b), 1023);
    SubstitutionsDetected(Lowered(s[..pos]), Values(a), Values(b));
    CharsValues(a);
    CharsValues(b);
    LoweredParts(s, pos);
    LoweredParts(t, pos);
  }
}
