/**
 * Bech32 of src/bech32.cpp (section "Bech32" of BIP 173, with a limit of 1023 characters).  Strings and data are
 * byte sequences; 32-bit words are naturals, with shifts and masks written as division and remainder.
 */
module Bech32 {
  import opened Basics
  import opened Limbs
  import opened BitXor
  import opened Checksum

  // ---------------------------------------------------------------- multiplication by x

  /** Lines 87-91: what each of the five bits that are shifted out adds. */
  function Multiple(n: nat): nat
    requires n < 5
  {
    if n == 0 then 0x3b6a57b2 else if n == 1 then 0x26508e6d else if n == 2 then 0x1ea119fa
    else if n == 3 then 0x3d4233dd else 0x2a1462b3
  }

  predicate HasBit(c: nat, n: nat) {
    c / Pow2(n) % 2 == 1
  }

  function Term(c: nat, n: nat): nat
    requires n < 5
  {
    if HasBit(c, 25 + n) then Multiple(n) else 0
  }

  /** The remainder moved up by one symbol, with the first n bits that fell off added back. */
  function Shifted(c: nat, n: nat): nat
    requires n <= 5
  {
    if n == 0 then c % 0x200_0000 * 32 else Xor(Shifted(c, n - 1), Term(c, n - 1))
  }

  /** Multiplication by x modulo the generator. */
  function TimesX(c: nat): nat { Shifted(c, 5) }

  lemma BitLinear(a: nat, b: nat, n: nat)
    ensures HasBit(Xor(a, b), n) <==> (HasBit(a, n) != HasBit(b, n))
  {
    XorDiv(a, b, n);
    OddXor(a / Pow2(n), b / Pow2(n));
  }

  lemma OddXor(x: nat, y: nat)
    ensures Xor(x, y) % 2 == 1 <==> ((x % 2 == 1) != (y % 2 == 1))
  {
    XorHalves(x, y);
  }

  lemma TermLinear(a: nat, b: nat, n: nat)
    requires n < 5
    ensures Term(Xor(a, b), n) == Xor(Term(a, n), Term(b, n))
  {
    BitLinear(a, b, 25 + n);
    XorSelf(Multiple(n));
    XorZero(Multiple(n));
    XorComm(0, Multiple(n));
    XorZero(0);
  }

  lemma {:induction false} ShiftedLinear(a: nat, b: nat, n: nat)
    requires n <= 5
    ensures Shifted(Xor(a, b), n) == Xor(Shifted(a, n), Shifted(b, n))
  {
    if n == 0 {
      Powers();
      XorMod(a, b, 25);
      XorShifted(a % 0x200_0000, b % 0x200_0000, 5);
    } else {
      ShiftedLinear(a, b, n - 1);
      TermLinear(a, b, n - 1);
      XorMedial(Shifted(a, n - 1), Shifted(b, n - 1), Term(a, n - 1), Term(b, n - 1));
    }
  }

  lemma Powers()
    ensures Pow2(5) == 32 && Pow2(25) == 0x200_0000 && Pow2(30) == 0x4000_0000
  {
    assert Pow2(5) == 32;
    Pow2Add(5, 5);
    Pow2Add(5, 10);
    Pow2Add(10, 15);
    Pow2Add(5, 25);
  }

  lemma {:induction false} ShiftedBound(c: nat, n: nat)
    requires n <= 5
    ensures Shifted(c, n) < 0x4000_0000
  {
    if n > 0 {
      ShiftedBound(c, n - 1);
      Powers();
      XorBound(Shifted(c, n - 1), Term(c, n - 1), 30);
    }
  }

  lemma NoTopBit(c: nat, n: nat)
    requires c < 0x200_0000
    ensures !HasBit(c, 25 + n)
  {
    Powers();
    Pow2Grows(25, 25 + n);
    ModIs(c, 0, Pow2(25 + n), c);
  }

  lemma NothingAdded(c: nat, n: nat)
    requires n < 5 && !HasBit(c, 25 + n)
    ensures Shifted(c, n + 1) == Shifted(c, n)
  {
    XorZero(Shifted(c, n));
  }

  /** Below 2^25 nothing falls off. */
  lemma {:induction false} ShiftedSmall(c: nat, n: nat)
    requires n <= 5 && c < 0x200_0000
    ensures Shifted(c, n) == c * 32
  {
    if n > 0 {
      NoTopBit(c, n - 1);
      NothingAdded(c, n - 1);
      ShiftedSmall(c, n - 1);
    }
  }

  // The lowest symbol of the result tells the five bits apart: the generator's constant term is invertible.

  function LowMultiple(n: nat): nat
    requires n < 5
  {
    if n == 0 then 18 else if n == 1 then 13 else if n == 2 then 26 else if n == 3 then 29 else 19
  }

  function Low(c: nat, n: nat): nat
    requires n <= 5
  {
    if n == 0 then 0 else Xor(Low(c, n - 1), if HasBit(c, 25 + (n - 1)) then LowMultiple(n - 1) else 0)
  }

  lemma TermLow(c: nat, n: nat)
    requires n < 5
    ensures Term(c, n) % 32 == if HasBit(c, 25 + n) then LowMultiple(n) else 0
  {
  }

  lemma {:induction false} LowIs(c: nat, n: nat)
    requires n <= 5
    ensures Shifted(c, n) % 32 == Low(c, n)
  {
    if n > 0 {
      Powers();
      LowIs(c, n - 1);
      TermLow(c, n - 1);
      XorMod(Shifted(c, n - 1), Term(c, n - 1), 5);
    }
  }

  lemma Low2(c: nat)
    ensures Low(c, 2) == if HasBit(c, 25) then (if HasBit(c, 26) then 31 else 18) else if HasBit(c, 26) then 13 else 0
  {
    assert Xor(0, 18) == 18 && Xor(0, 0) == 0 && Xor(0, 13) == 13 && Xor(18, 13) == 31 && Xor(18, 0) == 18;
    assert Low(c, 1) == Xor(0, if HasBit(c, 25) then 18 else 0);
  }

  lemma Low3(c: nat)
    ensures !HasBit(c, 27) ==> Low(c, 3) == Low(c, 2) && Low(c, 2) in {0, 13, 18, 31}
    ensures HasBit(c, 27) ==> Low(c, 3) in {26, 23, 8, 5}
  {
    Low2(c);
    XorZero(Low(c, 2));
    Xor26();
  }

  lemma Xor26()
    ensures Xor(0, 26) == 26 && Xor(13, 26) == 23 && Xor(18, 26) == 8 && Xor(31, 26) == 5
  {
    assert Xor(0, 3) == 3 && Xor(1, 3) == 2 && Xor(2, 3) == 1 && Xor(3, 3) == 0;
    assert Xor(0, 6) == 6 && Xor(3, 6) == 5 && Xor(4, 6) == 2 && Xor(7, 6) == 1;
    assert Xor(0, 13) == 13 && Xor(6, 13) == 11 && Xor(9, 13) == 4 && Xor(15, 13) == 2;
  }

  lemma Xor29()
    ensures Xor(0, 29) == 29 && Xor(13, 29) == 16 && Xor(18, 29) == 15 && Xor(31, 29) == 2
    ensures Xor(26, 29) == 7 && Xor(23, 29) == 10 && Xor(8, 29) == 21 && Xor(5, 29) == 24
  {
    assert Xor(0, 1) == 1 && Xor(1, 1) == 0;
    assert Xor(0, 3) == 3 && Xor(1, 3) == 2 && Xor(2, 3) == 1 && Xor(3, 3) == 0;
    assert Xor(1, 7) == 6 && Xor(2, 7) == 5 && Xor(3, 7) == 4 && Xor(4, 7) == 3 && Xor(5, 7) == 2 && Xor(6, 7) == 1 && Xor(7, 7) == 0 && Xor(0, 7) == 7;
  }

  /** No choice among the first four low symbols makes the fifth, and none but the empty one makes zero. */
  lemma Low4(c: nat)
    ensures Low(c, 4) != 19
    ensures Low(c, 4) == 0 ==> !HasBit(c, 25) && !HasBit(c, 26) && !HasBit(c, 27) && !HasBit(c, 28)
  {
    Low2(c);
    Low3(c);
    XorZero(Low(c, 3));
    assert Low(c, 4) == Xor(Low(c, 3), if HasBit(c, 28) then 29 else 0);
    Xor29();
  }

  lemma LowFive(c: nat)
    requires Low(c, 5) == 0
    ensures !HasBit(c, 25) && !HasBit(c, 26) && !HasBit(c, 27) && !HasBit(c, 28) && !HasBit(c, 29)
  {
    Low4(c);
    var v := Low(c, 4);
    assert Low(c, 5) == Xor(v, if HasBit(c, 29) then 19 else 0);
    XorZero(v);
    XorComm(v, 19);
    XorCancel(19, v);
    XorZero(19);
  }

  lemma TopBitsClear(c: nat)
    requires c < 0x4000_0000
    requires !HasBit(c, 25) && !HasBit(c, 26) && !HasBit(c, 27) && !HasBit(c, 28) && !HasBit(c, 29)
    ensures c < 0x200_0000
  {
    Powers();
    var t := c / Pow2(25);
    NextBit(c, 25);
    NextBit(c, 26);
    NextBit(c, 27);
    NextBit(c, 28);
    assert t < 32 && t % 2 == 0 && t / 2 % 2 == 0 && t / 2 / 2 % 2 == 0 && t / 2 / 2 / 2 % 2 == 0 && t / 2 / 2 / 2 / 2 % 2 == 0;
  }

  lemma NextBit(c: nat, n: nat)
    ensures 0 <= c / Pow2(n) && c / Pow2(n + 1) == c / Pow2(n) / 2
  {
    var p := Pow2(n);
    var q, r := c / p, c % p;
    DivMod(c, p);
    var h, e := q / 2, q % 2;
    assert q * p == h * (2 * p) + e * p by { assert q == 2 * h + e; }
    MulLe(e, 1, p);
    ModIs(e * p + r, h, 2 * p, c);
  }

  /** x is invertible modulo the generator. */
  lemma TimesXInjective(c: nat)
    requires 0 < c < 0x4000_0000
    ensures 0 < TimesX(c) < 0x4000_0000
  {
    ShiftedBound(c, 5);
    if TimesX(c) == 0 {
      LowIs(c, 5);
      LowFive(c);
      TopBitsClear(c);
      ShiftedSmall(c, 5);
    }
  }

  // ---------------------------------------------------------------- the ring of remainders

  function Gf(): Ring<nat> { Ring(Xor, TimesX, 0) }

  predicate Small(c: nat) { c < 0x4000_0000 }

  lemma GfAdditive()
    ensures Additive(Gf())
  {
    var r := Gf();
    forall a, b, c, d ensures Medial(r, a, b, c, d) { XorMedial(a, b, c, d); }
    forall a: nat ensures r.plus(a, r.zero) == a == r.plus(r.zero, a) { XorZero(a); XorComm(0, a); }
    forall a: nat ensures r.plus(a, a) == r.zero { XorSelf(a); }
    forall a, b ensures LinearAt(r, a, b) { ShiftedLinear(a, b, 5); }
    ShiftedSmall(0, 5);
  }

  lemma GfInvertible()
    ensures Invertible(Gf(), Small)
  {
    var r := Gf();
    forall a | Small(a) && a != r.zero ensures Small(r.timesX(a)) && r.timesX(a) != r.zero {
      TimesXInjective(a);
    }
  }

  // ---------------------------------------------------------------- six symbols as one number

  predicate Symbols(v: seq<nat>) { forall i :: 0 <= i < |v| ==> v[i] < 32 }

  function Pack(v: seq<nat>): nat {
    if v == [] then 0 else Pack(v[..|v| - 1]) * 32 + v[|v| - 1]
  }

  function Unpack(p: nat, n: nat): (v: seq<nat>)
    ensures |v| == n && Symbols(v)
  {
    if n == 0 then [] else Unpack(p / 32, n - 1) + [p % 32]
  }

  lemma {:induction false} UnpackPack(v: seq<nat>)
    requires Symbols(v)
    ensures Unpack(Pack(v), |v|) == v
  {
    if v != [] {
      UnpackPack(v[..|v| - 1]);
      assert Pack(v) / 32 == Pack(v[..|v| - 1]) && Pack(v) % 32 == v[|v| - 1];
    }
  }

  lemma {:induction false} PackUnpack(p: nat, n: nat)
    requires p < Pow2(5 * n)
    ensures Pack(Unpack(p, n)) == p
  {
    if n > 0 {
      Powers();
      Pow2Add(5, 5 * (n - 1));
      PackUnpack(p / 32, n - 1);
      assert Unpack(p, n)[..n - 1] == Unpack(p / 32, n - 1);
    }
  }

  lemma {:induction false} PackBound(v: seq<nat>)
    requires Symbols(v)
    ensures Pack(v) < Pow2(5 * |v|)
  {
    if v != [] {
      Powers();
      Pow2Add(5, 5 * (|v| - 1));
      PackBound(v[..|v| - 1]);
    }
  }

  /** Up to six symbols just line up in the remainder. */
  lemma {:induction false} FeedPack(v: seq<nat>)
    requires Symbols(v) && |v| <= 6
    ensures Feed(Gf(), 0, v) == Pack(v)
  {
    if v != [] {
      var n := |v| - 1;
      FeedPack(v[..n]);
      PackFits(v[..n]);
      Appended(Pack(v[..n]), v[n]);
    }
  }

  lemma PackFits(v: seq<nat>)
    requires Symbols(v) && |v| <= 5
    ensures Pack(v) < 0x200_0000
  {
    PackBound(v);
    Powers();
    Pow2Grows(5 * |v|, 25);
  }

  lemma Appended(p: nat, x: nat)
    requires p < 0x200_0000 && x < 32
    ensures Xor(TimesX(p), x) == p * 32 + x
  {
    ShiftedSmall(p, 5);
    Powers();
    XorDisjoint(p, x, 5);
  }

  lemma {:induction false} FeedBound(c: nat, v: seq<nat>)
    requires c < 0x4000_0000 && forall i :: 0 <= i < |v| ==> v[i] < 0x4000_0000
    ensures Feed(Gf(), c, v) < 0x4000_0000
  {
    if v != [] {
      var n := |v| - 1;
      FeedBound(c, v[..n]);
      ShiftedBound(Feed(Gf(), c, v[..n]), 5);
      Powers();
      XorBound(TimesX(Feed(Gf(), c, v[..n])), v[n], 30);
    }
  }

  // ---------------------------------------------------------------- checksums

  const SIX: Bytes := [0, 0, 0, 0, 0, 0]

  function PolyMod(v: Bytes): nat { Feed(Gf(), 1, v) }

  /** Lines 103-115. */
  function ExpandHrp(hrp: Bytes): (r: Bytes)
    ensures |r| == 2 * |hrp| + 1
  {
    seq(|hrp|, i requires 0 <= i < |hrp| => hrp[i] / 32) + [0] + seq(|hrp|, i requires 0 <= i < |hrp| => hrp[i] % 32)
  }

  predicate VerifyChecksum(hrp: Bytes, values: Bytes) {
    PolyMod(ExpandHrp(hrp) + values) == 1
  }

  /** Lines 128-139. */
  function CreateChecksum(hrp: Bytes, values: Bytes): (r: Bytes)
    ensures |r| == 6 && Symbols(r)
  {
    Unpack(Xor(PolyMod(ExpandHrp(hrp) + values + SIX), 1), 6)
  }

  /** The created checksum verifies, and no other six symbols do. */
  lemma ChecksumExact(hrp: Bytes, values: Bytes, s: Bytes)
    requires |s| == 6 && Symbols(s)
    ensures VerifyChecksum(hrp, values + s) <==> s == CreateChecksum(hrp, values)
  {
    var x := ExpandHrp(hrp) + values;
    var m := PolyMod(x + SIX);
    assert ExpandHrp(hrp) + (values + s) == x + s;
    TailAdds(x, s);
    PolyBound(x + SIX);
    Matching(m, s);
  }

  lemma PolyBound(v: Bytes)
    ensures PolyMod(v) < 0x4000_0000
  {
    FeedBound(1, v);
  }

  lemma TailAdds(x: Bytes, s: Bytes)
    requires |s| == 6 && Symbols(s)
    ensures PolyMod(x + s) == Xor(PolyMod(x + SIX), Pack(s))
  {
    GfAdditive();
    assert Zeros(Gf(), 6) == SIX;
    FeedTail(Gf(), 1, x, s);
    FeedPack(s);
  }

  lemma Matching(m: nat, s: seq<nat>)
    requires |s| == 6 && Symbols(s) && m < 0x4000_0000
    ensures Xor(m, Pack(s)) == 1 <==> s == Unpack(Xor(m, 1), 6)
  {
    XorCancel(m, Pack(s));
    XorCancel(m, 1);
    Powers();
    XorBound(m, 1, 30);
    PackUnpack(Xor(m, 1), 6);
    UnpackPack(s);
  }

  /** Any change within six neighbouring symbols changes the remainder, at any length. */
  lemma BurstDetected(u: Bytes, v: Bytes, i: nat, j: nat)
    requires |u| == |v| && i <= j <= |u| && j - i <= 6 && u[..i] == v[..i] && u[j..] == v[j..]
    requires Symbols(u[i..j]) && Symbols(v[i..j])
    requires PolyMod(u) == PolyMod(v)
    ensures u == v
  {
    WindowVanishes(u, v, i, j);
    SameStretch(u[i..j], v[i..j]);
    assert u == u[..i] + u[i..j] + u[j..] && v == v[..i] + v[i..j] + v[j..];
  }

  lemma SameStretch(a: seq<nat>, b: seq<nat>)
    requires |a| == |b| && forall k :: 0 <= k < |a| ==> Sum(Gf(), a, b)[k] == 0
    ensures a == b
  {
    forall k | 0 <= k < |a| ensures a[k] == b[k] {
      assert Sum(Gf(), a, b)[k] == Xor(a[k], b[k]);
      SameSymbol(a[k], b[k]);
    }
  }

  lemma SameSymbol(x: nat, y: nat)
    requires Xor(x, y) == 0
    ensures x == y
  {
    XorCancel(x, y);
    XorZero(x);
  }

  lemma WindowVanishes(u: Bytes, v: Bytes, i: nat, j: nat)
    requires |u| == |v| && i <= j <= |u| && j - i <= 6 && u[..i] == v[..i] && u[j..] == v[j..]
    requires Symbols(u[i..j]) && Symbols(v[i..j])
    requires PolyMod(u) == PolyMod(v)
    ensures var w := Sum(Gf(), u[i..j], v[i..j]); forall k :: 0 <= k < |w| ==> w[k] == 0
  {
    var w := Sum(Gf(), u[i..j], v[i..j]);
    SumSymbols(u[i..j], v[i..j]);
    FeedPack(w);
    PackSmall(w);
    GfAdditive();
    GfInvertible();
    DifferenceVanishes(Gf(), Small, 1, u, v, i, j);
    PackZero(w);
  }

  lemma PackSmall(w: seq<nat>)
    requires Symbols(w) && |w| <= 6
    ensures Small(Pack(w))
  {
    PackBound(w);
    Powers();
    Pow2Grows(5 * |w|, 30);
  }

  lemma SumSymbols(a: seq<nat>, b: seq<nat>)
    requires |a| == |b| && Symbols(a) && Symbols(b)
    ensures Symbols(Sum(Gf(), a, b))
  {
    Powers();
    forall k | 0 <= k < |a| ensures Sum(Gf(), a, b)[k] < 32 {
      XorBound(a[k], b[k], 5);
    }
  }

  lemma {:induction false} PackZero(v: seq<nat>)
    requires Pack(v) == 0
    ensures forall i :: 0 <= i < |v| ==> v[i] == 0
  {
    if v != [] { PackZero(v[..|v| - 1]); }
  }

  // ---------------------------------------------------------------- strings

  const ONE: Byte := 49

  function LowerCase(c: Byte): Byte {
    if 65 <= c <= 90 then c + 32 else c
  }

  /** The encoding table, line 13. */
  function CharOf(v: nat): Byte
    requires v < 32
  {
    if v == 0 then 113 else if v == 1 then 112 else if v == 2 then 122 else if v == 3 then 114
    else if v == 4 then 121 else if v == 5 then 57 else if v == 6 then 120 else if v == 7 then 56
    else if v == 8 then 103 else if v == 9 then 102 else if v == 10 then 50 else if v == 11 then 116
    else if v == 12 then 118 else if v == 13 then 100 else if v == 14 then 119 else if v == 15 then 48
    else if v == 16 then 115 else if v == 17 then 51 else if v == 18 then 106 else if v == 19 then 110
    else if v == 20 then 53 else if v == 21 then 52 else if v == 22 then 107 else if v == 23 then 104
    else if v == 24 then 99 else if v == 25 then 101 else if v == 26 then 54 else if v == 27 then 109
    else if v == 28 then 117 else if v == 29 then 97 else if v == 30 then 55 else 108
  }

  /** The decoding table, lines 16-25: both cases of a letter stand for the same value. */
  function RevOf(c: Byte): int {
    var l := LowerCase(c);
    if l == 113 then 0 else if l == 112 then 1 else if l == 122 then 2 else if l == 114 then 3
    else if l == 121 then 4 else if l == 57 then 5 else if l == 120 then 6 else if l == 56 then 7
    else if l == 103 then 8 else if l == 102 then 9 else if l == 50 then 10 else if l == 116 then 11
    else if l == 118 then 12 else if l == 100 then 13 else if l == 119 then 14 else if l == 48 then 15
    else if l == 115 then 16 else if l == 51 then 17 else if l == 106 then 18 else if l == 110 then 19
    else if l == 53 then 20 else if l == 52 then 21 else if l == 107 then 22 else if l == 104 then 23
    else if l == 99 then 24 else if l == 101 then 25 else if l == 54 then 26 else if l == 109 then 27
    else if l == 117 then 28 else if l == 97 then 29 else if l == 55 then 30 else if l == 108 then 31 else -1
  }

  lemma RevChar(v: nat)
    requires v < 32
    ensures RevOf(CharOf(v)) == v && CharOf(v) != ONE && 33 <= CharOf(v) <= 126 && LowerCase(CharOf(v)) == CharOf(v)
  {
  }

  lemma CharRev(c: Byte)
    ensures RevOf(c) != -1 ==> 0 <= RevOf(c) < 32 && CharOf(RevOf(c)) == LowerCase(c)
  {
  }

  function Lowered(s: Bytes): (r: Bytes)
    ensures |r| == |s|
  {
    seq(|s|, i requires 0 <= i < |s| => LowerCase(s[i]))
  }

  function Chars(v: Bytes): (r: Bytes)
    requires Symbols(v)
    ensures |r| == |v|
  {
    seq(|v|, i requires 0 <= i < |v| => CharOf(v[i]))
  }

  predicate Readable(s: Bytes) { forall i :: 0 <= i < |s| ==> RevOf(s[i]) != -1 }

  function Values(s: Bytes): (r: Bytes)
    requires Readable(s)
    ensures |r| == |s| && Symbols(r)
  {
    assert forall i :: 0 <= i < |s| ==> 0 <= RevOf(s[i]) < 32 by {
      forall i | 0 <= i < |s| ensures 0 <= RevOf(s[i]) < 32 { CharRev(s[i]); }
    }
    seq<Byte>(|s|, i requires 0 <= i < |s| => RevOf(s[i]))
  }

  /** Lines 147-159; a value of 32 or more yields the empty string. */
  function Encode(hrp: Bytes, values: Bytes): Bytes {
    var combined := values + CreateChecksum(hrp, values);
    if Symbols(combined) then hrp + [ONE] + Chars(combined) else []
  }

  predicate Printable(s: Bytes) { forall i :: 0 <= i < |s| ==> 33 <= s[i] <= 126 }
  predicate HasLower(s: Bytes) { exists i :: 0 <= i < |s| && 97 <= s[i] <= 122 }
  predicate HasUpper(s: Bytes) { exists i :: 0 <= i < |s| && 65 <= s[i] <= 90 }

  /** The last separator, or -1. */
  function LastOne(s: Bytes): (pos: int)
    ensures -1 <= pos < |s|
    ensures pos >= 0 ==> s[pos] == ONE
    ensures forall i :: pos < i < |s| ==> s[i] != ONE
  {
    if s == [] then -1
    else if s[|s| - 1] == ONE then |s| - 1
    else LastOne(s[..|s| - 1])
  }

  predicate OneCase(s: Bytes) { Printable(s) && !(HasLower(s) && HasUpper(s)) }

  predicate Framed(s: Bytes) { |s| <= 1023 && 0 < LastOne(s) && LastOne(s) + 7 <= |s| }

  function Checked(hrp: Bytes, values: Bytes): Option<(Bytes, Bytes)>
    requires |values| >= 6
  {
    if VerifyChecksum(hrp, values) then Some((hrp, values[..|values| - 6])) else None
  }

  function DecodeParts(head: Bytes, tail: Bytes): Option<(Bytes, Bytes)>
    requires |tail| >= 6
  {
    if Readable(tail) then Checked(Lowered(head), Values(tail)) else None
  }

  /** Lines 163-174: the parts around the last separator of a string that may be Bech32 at all. */
  function Split(s: Bytes): Option<(Bytes, Bytes)> {
    if OneCase(s) && Framed(s) then Some((s[..LastOne(s)], s[LastOne(s) + 1..])) else None
  }

  /** Lines 162-192. */
  function Decode(s: Bytes): Option<(Bytes, Bytes)> {
    var parts := Split(s);
    if parts.None? then None else DecodeParts(parts.value.0, parts.value.1)
  }

  // ---------------------------------------------------------------- round trips

  predicate GoodHrp(hrp: Bytes) { hrp != [] && Printable(hrp) && !HasUpper(hrp) }

  lemma ValuesChars(v: Bytes)
    requires Symbols(v)
    ensures Readable(Chars(v)) && Values(Chars(v)) == v
    ensures Printable(Chars(v)) && !HasUpper(Chars(v)) && ONE !in Chars(v)
  {
    forall i | 0 <= i < |v|
      ensures var c := Chars(v)[i]; RevOf(c) == v[i] && c != ONE && 33 <= c <= 126 && !(65 <= c <= 90)
    {
      RevChar(v[i]);
    }
  }

  lemma LoweredSame(s: Bytes)
    requires !HasUpper(s)
    ensures Lowered(s) == s
  {
    forall i | 0 <= i < |s| ensures Lowered(s)[i] == s[i] { }
  }

  /** What is encoded is decoded. */
  lemma DecodeEncode(hrp: Bytes, values: Bytes)
    requires GoodHrp(hrp) && Symbols(values) && |hrp| + 7 + |values| <= 1023
    ensures Decode(Encode(hrp, values)) == Some((hrp, values))
  {
    var combined := values + CreateChecksum(hrp, values);
    var tail := Chars(combined);
    ValuesChars(combined);
    SplitEncoded(hrp, tail);
    DecodeTail(hrp, values);
  }

  lemma DecodeTail(hrp: Bytes, values: Bytes)
    requires !HasUpper(hrp) && Symbols(values)
    ensures var combined := values + CreateChecksum(hrp, values);
            Symbols(combined) && DecodeParts(hrp, Chars(combined)) == Some((hrp, values))
  {
    var sum := CreateChecksum(hrp, values);
    var combined := values + sum;
    ValuesChars(combined);
    LoweredSame(hrp);
    ChecksumExact(hrp, values, sum);
    assert combined[..|combined| - 6] == values;
  }

  lemma SplitEncoded(hrp: Bytes, tail: Bytes)
    requires GoodHrp(hrp) && Printable(tail) && !HasUpper(tail) && ONE !in tail
    requires |tail| >= 6 && |hrp| + 1 + |tail| <= 1023
    ensures Split(hrp + [ONE] + tail) == Some((hrp, tail))
  {
    EncodedShape(hrp, tail);
    var s := hrp + [ONE] + tail;
    assert s[..|hrp|] == hrp && s[|hrp| + 1..] == tail;
  }

  lemma EncodedShape(hrp: Bytes, tail: Bytes)
    requires GoodHrp(hrp) && Printable(tail) && !HasUpper(tail) && ONE !in tail
    ensures var s := hrp + [ONE] + tail; Printable(s) && !HasUpper(s) && LastOne(s) == |hrp|
  {
    var s := hrp + [ONE] + tail;
    assert s[|hrp|] == ONE;
    forall i | |hrp| < i < |s| ensures s[i] != ONE { assert s[i] in tail; }
  }

  lemma CharsValues(s: Bytes)
    requires Readable(s)
    ensures Chars(Values(s)) == Lowered(s)
  {
    forall i | 0 <= i < |s| ensures Chars(Values(s))[i] == Lowered(s)[i] {
      CharRev(s[i]);
    }
  }

  /** An accepted string is the encoding of what it decodes to, up to letter case. */
  lemma EncodeDecode(s: Bytes)
    requires Decode(s).Some?
    ensures Encode(Decode(s).value.0, Decode(s).value.1) == Lowered(s)
  {
    var pos := LastOne(s);
    var hrp, all := Lowered(s[..pos]), Values(s[pos + 1..]);
    assert Decode(s).value == (hrp, all[..|all| - 6]);
    EncodedBack(s, pos, hrp, all);
  }

  lemma EncodedBack(s: Bytes, pos: nat, hrp: Bytes, all: Bytes)
    requires pos + 7 <= |s| && s[pos] == ONE && Readable(s[pos + 1..])
    requires hrp == Lowered(s[..pos]) && all == Values(s[pos + 1..]) && VerifyChecksum(hrp, all)
    ensures Encode(hrp, all[..|all| - 6]) == Lowered(s)
  {
    EncodeVerified(hrp, all);
    CharsValues(s[pos + 1..]);
    LoweredParts(s, pos);
  }

  lemma EncodeVerified(hrp: Bytes, all: Bytes)
    requires |all| >= 6 && Symbols(all) && VerifyChecksum(hrp, all)
    ensures Encode(hrp, all[..|all| - 6]) == hrp + [ONE] + Chars(all)
  {
    var values, sum := all[..|all| - 6], all[|all| - 6..];
    assert all == values + sum;
    ChecksumExact(hrp, values, sum);
  }

  lemma LoweredParts(s: Bytes, pos: nat)
    requires pos < |s| && s[pos] == ONE
    ensures Lowered(s) == Lowered(s[..pos]) + [ONE] + Lowered(s[pos + 1..])
  {
    assert s == s[..pos] + [ONE] + s[pos + 1..];
  }

  // ---------------------------------------------------------------- the loops

  lemma XorSwap(a: nat, b: nat, c: nat)
    ensures Xor(Xor(a, b), c) == Xor(Xor(a, c), b)
  {
    XorAssoc(a, b, c);
    XorComm(b, c);
    XorAssoc(a, c, b);
  }

  lemma StepTerm(c: nat, n: nat, v: nat, r: nat)
    requires n < 5 && r == Xor(Shifted(c, n), v)
    ensures Xor(Shifted(c, n + 1), v) == if HasBit(c, 25 + n) then Xor(r, Multiple(n)) else r
  {
    if HasBit(c, 25 + n) {
      XorSwap(Shifted(c, n), v, Multiple(n));
    } else {
      NothingAdded(c, n);
    }
  }

  /** Lines 80-91: the update with one more symbol; the five conditional lines are the turns of the loop. */
  method Update(c: nat, v: Byte) returns (r: nat)
    ensures r == Xor(TimesX(c), v)
  {
    Powers();
    var c0 := c / 0x200_0000;
    r := Xor(c % 0x200_0000 * 32, v);
    for n := 0 to 5
      invariant c0 == c / Pow2(25 + n) >= 0 && r == Xor(Shifted(c, n), v)
    {
      StepTerm(c, n, v, r);
      NextBit(c, 25 + n);
      if c0 % 2 == 1 { r := Xor(r, Multiple(n)); }
      c0 := c0 / 2;
    }
  }

  /** Lines 64-93. */
  method ComputePolyMod(v: Bytes) returns (c: nat)
    ensures c == PolyMod(v)
  {
    c := 1;
    for i := 0 to |v|
      invariant c == PolyMod(v[..i])
    {
      assert v[..i + 1][..i] == v[..i];
      c := Update(c, v[i]);
    }
    assert v[..|v|] == v;
  }

  lemma DivPow(p: nat, k: nat)
    ensures p / 32 / Pow2(k) == p / Pow2(5 + k) >= 0
  {
    Powers();
    Pow2Add(5, k);
    var q, r, w := p / 32, p % 32, Pow2(k);
    DivMod(q, w);
    var h, l := q / w, q % w;
    assert p == 32 * (h * w + l) + r;
    assert 32 * (h * w) == h * (32 * w);
    ModIs(32 * l + r, h, 32 * w, p);
  }

  lemma {:induction false} UnpackAt(p: nat, n: nat, i: nat)
    requires i < n
    ensures Unpack(p, n)[i] == p / Pow2(5 * (n - 1 - i)) % 32
  {
    if i < n - 1 {
      UnpackAt(p / 32, n - 1, i);
      DivPow(p, 5 * (n - 2 - i));
      assert Unpack(p, n)[i] == Unpack(p / 32, n - 1)[i];
    } else {
      assert Unpack(p, n)[i] == p % 32;
    }
  }

  /** Lines 133-138: the six groups of five bits, highest first. */
  method SixGroups(mod: nat) returns (r: Bytes)
    ensures r == Unpack(mod, 6)
  {
    r := [];
    for i := 0 to 6
      invariant r == Unpack(mod, 6)[..i]
    {
      UnpackAt(mod, 6, i);
      DivMod(mod, Pow2(5 * (5 - i)));
      var group: Byte := mod / Pow2(5 * (5 - i)) % 32;
      r := r + [group];
    }
  }

  /** Lines 128-139. */
  method ComputeChecksum(hrp: Bytes, values: Bytes) returns (r: Bytes)
    ensures r == CreateChecksum(hrp, values)
  {
    var enc := ExpandHrp(hrp) + values + SIX;
    var mod := ComputePolyMod(enc);
    r := SixGroups(Xor(mod, 1));
  }

  /** Lines 150-158. */
  method EncodeChars(hrp: Bytes, combined: Bytes) returns (ret: Bytes)
    ensures ret == if Symbols(combined) then hrp + [ONE] + Chars(combined) else []
  {
    ret := hrp + [ONE];
    for i := 0 to |combined|
      invariant Symbols(combined[..i]) && ret == hrp + [ONE] + Chars(combined[..i])
    {
      if combined[i] >= 32 {
        return [];
      }
      ret := ret + [CharOf(combined[i])];
      assert Chars(combined[..i + 1]) == Chars(combined[..i]) + [CharOf(combined[i])];
    }
    assert combined[..|combined|] == combined;
  }

  /** Lines 147-159. */
  method EncodeString(hrp: Bytes, values: Bytes) returns (ret: Bytes)
    ensures ret == Encode(hrp, values)
  {
    var checksum := ComputeChecksum(hrp, values);
    ret := EncodeChars(hrp, values + checksum);
  }

  /** Lines 163-170. */
  method CheckCase(s: Bytes) returns (ok: bool)
    ensures ok <==> OneCase(s)
  {
    var lower, upper := false, false;
    for i := 0 to |s|
      invariant Printable(s[..i])
      invariant lower <==> HasLower(s[..i])
      invariant upper <==> HasUpper(s[..i])
    {
      var c := s[i];
      if c < 33 || c > 126 { return false; }
      CaseStep(s, i);
      if 97 <= c <= 122 { lower := true; }
      if 65 <= c <= 90 { upper := true; }
    }
    assert s[..|s|] == s;
    ok := !(lower && upper);
  }

  lemma CaseStep(s: Bytes, i: nat)
    requires i < |s|
    ensures HasLower(s[..i + 1]) <==> HasLower(s[..i]) || 97 <= s[i] <= 122
    ensures HasUpper(s[..i + 1]) <==> HasUpper(s[..i]) || 65 <= s[i] <= 90
  {
    var t, u := s[..i + 1], s[..i];
    assert t[i] == s[i];
    if HasLower(u) { var k :| 0 <= k < |u| && 97 <= u[k] <= 122; assert t[k] == u[k]; }
    if HasUpper(u) { var k :| 0 <= k < |u| && 65 <= u[k] <= 90; assert t[k] == u[k]; }
    if HasLower(t) { var k :| 0 <= k < |t| && 97 <= t[k] <= 122; assert k < i ==> u[k] == t[k]; }
    if HasUpper(t) { var k :| 0 <= k < |t| && 65 <= t[k] <= 90; assert k < i ==> u[k] == t[k]; }
  }

  /** Lines 175-183. */
  method ReadValues(s: Bytes) returns (r: Option<Bytes>)
    ensures r == if Readable(s) then Some(Values(s)) else None
  {
    var values: Bytes := [];
    for i := 0 to |s|
      invariant Readable(s[..i]) && values == Values(s[..i])
    {
      var rev := RevOf(s[i]);
      if rev == -1 { return None; }
      CharRev(s[i]);
      values := values + [rev];
    }
    assert s[..|s|] == s;
    r := Some(values);
  }

  /** Lines 184-187. */
  method ReadHrp(s: Bytes) returns (hrp: Bytes)
    ensures hrp == Lowered(s)
  {
    hrp := [];
    for i := 0 to |s|
      invariant hrp == Lowered(s[..i])
    {
      hrp := hrp + [LowerCase(s[i])];
    }
    assert s[..|s|] == s;
  }

  /** Lines 175-191. */
  method ReadParts(head: Bytes, tail: Bytes) returns (r: Option<(Bytes, Bytes)>)
    requires |tail| >= 6
    ensures r == DecodeParts(head, tail)
  {
    var read := ReadValues(tail);
    if read.None? { return None; }
    var values := read.value;
    var hrp := ReadHrp(head);
    var expanded := ExpandHrp(hrp);
    var c := ComputePolyMod(expanded + values);
    if c != 1 { return None; }
    r := Some((hrp, values[..|values| - 6]));
  }

  /** Lines 163-174. */
  method SplitString(s: Bytes) returns (r: Option<(Bytes, Bytes)>)
    ensures r == Split(s)
  {
    var ok := CheckCase(s);
    if !ok { return None; }
    var pos := LastOne(s);
    if |s| > 1023 || pos < 0 || pos == 0 || pos + 7 > |s| { return None; }
    r := Some((s[..pos], s[pos + 1..]));
  }

  /** Lines 162-192. */
  method DecodeString(s: Bytes) returns (r: Option<(Bytes, Bytes)>)
    ensures r == Decode(s)
  {
    var parts := SplitString(s);
    if parts.None? { return None; }
    r := ReadParts(parts.value.0, parts.value.1);
  }
}
