/**
 * What Bech32 strings are, said without the decoder: which strings are accepted and what they stand for, how a prefix
 * enters the checksum, the documented generator polynomial, the alphabet and a published string.
 */
module Bech32Exact {
  import opened Basics
  import opened Limbs
  import opened BitXor
  import opened Checksum
  import opened Bech32

  // ---------------------------------------------------------------- which strings are accepted

  /** Characters from '!' to '~', and not both a small and a capital letter. */
  predicate Plain(s: Bytes) {
    && (forall i :: 0 <= i < |s| ==> '!' as int <= s[i] <= '~' as int)
    && (forall i, j :: 0 <= i < |s| && 0 <= j < |s| && 'a' as int <= s[i] <= 'z' as int ==>
          !('A' as int <= s[j] <= 'Z' as int))
  }

  /** A string is decoded to prefix h and data v exactly if, with its capitals made small, it is what they encode to. */
  lemma DecodeExact(s: Bytes, h: Bytes, v: Bytes)
    ensures Decode(s) == Some((h, v)) <==>
            Plain(s) && |s| <= 1023 && h != [] && (forall i :: 0 <= i < |v| ==> v[i] < 32) && Encode(h, v) == Lowered(s)
  {
    PlainIs(s);
    if Decode(s) == Some((h, v)) {
      DecodedEncodes(s, h, v);
    } else if Plain(s) && |s| <= 1023 && h != [] && Symbols(v) && Encode(h, v) == Lowered(s) {
      EncodingDecodes(s, h, v);
    }
  }

  lemma DecodedEncodes(s: Bytes, h: Bytes, v: Bytes)
    requires Decode(s) == Some((h, v))
    ensures OneCase(s) && |s| <= 1023 && h != [] && Symbols(v) && Encode(h, v) == Lowered(s)
  {
    DecodedShape(s, h, v);
    EncodeDecode(s);
  }

  lemma PlainIs(s: Bytes)
    ensures Plain(s) <==> OneCase(s)
  {
  }

  lemma PartsShape(head: Bytes, tail: Bytes, h: Bytes, v: Bytes)
    requires |tail| >= 6 && DecodeParts(head, tail) == Some((h, v))
    ensures h == Lowered(head) && Symbols(v)
  {
  }

  lemma DecodedShape(s: Bytes, h: Bytes, v: Bytes)
    requires Decode(s) == Some((h, v))
    ensures OneCase(s) && |s| <= 1023 && h != [] && Symbols(v)
  {
    var parts := Split(s).value;
    PartsShape(parts.0, parts.1, h, v);
  }

  lemma EncodingDecodes(s: Bytes, h: Bytes, v: Bytes)
    requires OneCase(s) && |s| <= 1023 && h != [] && Symbols(v) && Encode(h, v) == Lowered(s)
    ensures Decode(s) == Some((h, v))
  {
    var all := v + CreateChecksum(h, v);
    Separated(s, h, all);
    TailReads(s, h, all);
    ChecksumExact(h, v, CreateChecksum(h, v));
    assert all[..|all| - 6] == v;
    PartsRead(s, h, all);
  }

  lemma PartsRead(s: Bytes, h: Bytes, all: Bytes)
    requires OneCase(s) && |s| <= 1023 && |s| == |h| + 1 + |all| && LastOne(s) == |h| > 0 && |all| >= 6
    requires Lowered(s[..|h|]) == h && Readable(s[|h| + 1..]) && Values(s[|h| + 1..]) == all && VerifyChecksum(h, all)
    ensures Decode(s) == Some((h, all[..|all| - 6]))
  {
    assert Split(s) == Some((s[..|h|], s[|h| + 1..]));
  }

  lemma Separated(s: Bytes, h: Bytes, all: Bytes)
    requires Symbols(all) && Lowered(s) == h + [ONE] + Chars(all)
    ensures LastOne(s) == |h| && |s| == |h| + 1 + |all| && Lowered(s[..|h|]) == h
  {
    var n := |h|;
    assert Lowered(s)[n] == ONE;
    forall i | n < i < |s| ensures s[i] != ONE {
      assert Lowered(s)[i] == Chars(all)[i - n - 1];
      RevChar(all[i - n - 1]);
    }
    forall i | 0 <= i < n ensures LowerCase(s[i]) == h[i] { assert Lowered(s)[i] == h[i]; }
  }

  lemma TailReads(s: Bytes, h: Bytes, all: Bytes)
    requires Symbols(all) && Lowered(s) == h + [ONE] + Chars(all) && |s| == |h| + 1 + |all|
    ensures var tail := s[|h| + 1..]; Readable(tail) && Values(tail) == all
  {
    var tail := s[|h| + 1..];
    forall i | 0 <= i < |tail| ensures RevOf(tail[i]) == all[i] {
      assert Lowered(s)[|h| + 1 + i] == Chars(all)[i];
      RevChar(all[i]);
      RevLowered(tail[i]);
    }
  }

  lemma RevLowered(c: Byte)
    ensures RevOf(c) == RevOf(LowerCase(c))
  {
  }

  // ---------------------------------------------------------------- prefix, generator and alphabet

  /** Character i of the prefix, cut into its high three and its low five bits. */
  predicate Halved(hrp: Bytes, r: Bytes, i: nat)
    requires i < |hrp| && |r| == 2 * |hrp| + 1
  {
    var high: int, low: int := r[i], r[|hrp| + 1 + i];
    low < 32 && hrp[i] == 32 * high + low
  }

  /** A prefix becomes the high bits of all its characters, a zero, and their low bits. */
  lemma ExpandExact(hrp: Bytes, r: Bytes)
    ensures r == ExpandHrp(hrp) <==>
            |r| == 2 * |hrp| + 1 && r[|hrp|] == 0 && forall i :: 0 <= i < |hrp| ==> Halved(hrp, r, i)
  {
    var x, n := ExpandHrp(hrp), |hrp|;
    forall i | 0 <= i < n ensures Halved(hrp, x, i) {
      assert x[i] == hrp[i] / 32 && x[n + 1 + i] == hrp[i] % 32;
    }
    if |r| == 2 * n + 1 && r[n] == 0 && forall i :: 0 <= i < n ==> Halved(hrp, r, i) {
      forall k | 0 <= k < |r| ensures r[k] == x[k] {
        var i := if k < n then k else k - n - 1;
        if k != n { assert Halved(hrp, r, i) && Halved(hrp, x, i); }
      }
    }
  }

  const CHARSET: string := "qpzry9x8gf2tvdw0s3jn54khce6mua7l"

  lemma Alphabet(v: nat)
    requires v < 32
    ensures |CHARSET| == 32 && CharOf(v) == CHARSET[v] as int
  {
  }

  function Code(c: char): Byte {
    if c as int < 128 then c as int else 0
  }

  function Ascii(s: string): Bytes
  {
    seq<Byte>(|s|, i requires 0 <= i < |s| => Code(s[i]))
  }

  // ---------------------------------------------------------------- one step on six symbols

  lemma PackSum(u: seq<nat>, v: seq<nat>)
    requires |u| == |v| <= 6 && Symbols(u) && Symbols(v)
    ensures Symbols(Sum(Gf(), u, v)) && Xor(Pack(u), Pack(v)) == Pack(Sum(Gf(), u, v))
  {
    GfAdditive();
    SumSymbols(u, v);
    FeedPack(u);
    FeedPack(v);
    FeedPack(Sum(Gf(), u, v));
    FeedSum(Gf(), 0, u, 0, v);
    XorZero(0);
  }

  /** A symbol by its bits, the highest first. */
  datatype Sym = Sym(a: bool, b: bool, c: bool, d: bool, e: bool) {
    function Num(): (n: nat)
      ensures n < 32
    {
      (if a then 16 else 0) + (if b then 8 else 0) + (if c then 4 else 0) + (if d then 2 else 0) + (if e then 1 else 0)
    }

    function Plus(y: Sym): Sym { Sym(a != y.a, b != y.b, c != y.c, d != y.d, e != y.e) }
  }

  /** The remainder: six symbols, the coefficient of x^5 first. */
  datatype Six = Six(s5: Sym, s4: Sym, s3: Sym, s2: Sym, s1: Sym, s0: Sym) {
    function At(i: int): Sym
      requires 0 <= i < 6
    {
      if i == 0 then s5 else if i == 1 then s4 else if i == 2 then s3 else if i == 3 then s2 else if i == 4 then s1 else s0
    }

    function Nums(): (v: seq<nat>)
      ensures |v| == 6 && Symbols(v)
    {
      seq(6, i requires 0 <= i < 6 => At(i).Num())
    }

    function Num(): nat { Pack(Nums()) }

    function Plus(y: Six): Six {
      Six(s5.Plus(y.s5), s4.Plus(y.s4), s3.Plus(y.s3), s2.Plus(y.s2), s1.Plus(y.s1), s0.Plus(y.s0))
    }

    /** Multiplied by x, with symbol v added: what falls off at the top is folded back. */
    function Next(v: Sym): Six { Fold(s5).Plus(Six(s4, s3, s2, s1, s0, v)) }
  }

  const S0 := Sym(false, false, false, false, false)
  const S1 := Sym(false, false, false, false, true)
  const S2 := Sym(false, false, false, true, false)
  const S3 := Sym(false, false, false, true, true)
  const S4 := Sym(false, false, true, false, false)
  const S5 := Sym(false, false, true, false, true)
  const S6 := Sym(false, false, true, true, false)
  const S8 := Sym(false, true, false, false, false)
  const S9 := Sym(false, true, false, false, true)
  const S10 := Sym(false, true, false, true, false)
  const S11 := Sym(false, true, false, true, true)
  const S12 := Sym(false, true, true, false, false)
  const S13 := Sym(false, true, true, false, true)
  const S15 := Sym(false, true, true, true, true)
  const S16 := Sym(true, false, false, false, false)
  const S18 := Sym(true, false, false, true, false)
  const S19 := Sym(true, false, false, true, true)
  const S20 := Sym(true, false, true, false, false)
  const S21 := Sym(true, false, true, false, true)
  const S22 := Sym(true, false, true, true, false)
  const S24 := Sym(true, true, false, false, false)
  const S25 := Sym(true, true, false, false, true)
  const S26 := Sym(true, true, false, true, false)
  const S27 := Sym(true, true, false, true, true)
  const S28 := Sym(true, true, true, false, false)
  const S29 := Sym(true, true, true, false, true)
  const S30 := Sym(true, true, true, true, false)
  const S31 := Sym(true, true, true, true, true)

  /** The generator of lines 46-47: x^6 is 29 x^5 + 22 x^4 + 20 x^3 + 21 x^2 + 29 x + 18. */
  const G1 := Six(S29, S22, S20, S21, S29, S18)
  /** 2, 4, 8 and 16 times that in the field of 32 elements. */
  const G2 := Six(S19, S5, S1, S3, S19, S13)
  const G4 := Six(S15, S10, S2, S6, S15, S26)
  const G8 := Six(S30, S20, S4, S12, S30, S29)
  const G16 := Six(S21, S1, S8, S24, S21, S19)
  const ZERO := Six(S0, S0, S0, S0, S0, S0)

  function LowFold(t: Sym): Six {
    (if t.e then G1 else ZERO).Plus(if t.d then G2 else ZERO).Plus(if t.c then G4 else ZERO)
  }

  function Fold(t: Sym): Six {
    LowFold(t).Plus(if t.b then G8 else ZERO).Plus(if t.a then G16 else ZERO)
  }

  lemma Generator()
    ensures Multiple(0) == G1.Num() && Multiple(1) == G2.Num() && Multiple(2) == G4.Num()
    ensures Multiple(3) == G8.Num() && Multiple(4) == G16.Num()
  {
    PackSix(G1.Nums());
    PackSix(G2.Nums());
    PackSix(G4.Nums());
    PackSix(G8.Nums());
    PackSix(G16.Nums());
  }

  lemma ZeroIs()
    ensures ZERO.Num() == 0
  {
    PackSix(ZERO.Nums());
  }

  lemma PackSix(v: seq<nat>)
    requires |v| == 6
    ensures Pack(v) == ((((v[0] * 32 + v[1]) * 32 + v[2]) * 32 + v[3]) * 32 + v[4]) * 32 + v[5]
  {
    assert Pack(v[..0]) == 0;
    assert v[..1][..0] == v[..0] && Pack(v[..1]) == v[0];
    assert v[..2][..1] == v[..1] && Pack(v[..2]) == v[0] * 32 + v[1];
    assert v[..3][..2] == v[..2] && Pack(v[..3]) == Pack(v[..2]) * 32 + v[2];
    assert v[..4][..3] == v[..3] && Pack(v[..4]) == Pack(v[..3]) * 32 + v[3];
    assert v[..5][..4] == v[..4] && Pack(v[..5]) == Pack(v[..4]) * 32 + v[4];
    assert Pack(v) == Pack(v[..5]) * 32 + v[5];
  }

  // ----- exclusive or of symbols

  lemma XorUp(x: nat, y: nat, p: nat, q: nat, d: nat)
    requires x / 2 == p && y / 2 == q && d == if x % 2 == y % 2 then 0 else 1
    ensures Xor(x, y) == 2 * Xor(p, q) + d
  {
  }

  lemma HalfOf(p: nat, b: bool, x: nat)
    requires x == 2 * p + Bit(b)
    ensures x / 2 == p && x % 2 == Bit(b)
  {
  }

  function Bit(b: bool): nat { if b then 1 else 0 }

  lemma OneMore(p: nat, b: bool, q: nat, c: bool, x: nat, y: nat)
    requires x == 2 * p + Bit(b) && y == 2 * q + Bit(c)
    ensures Xor(x, y) == 2 * Xor(p, q) + Bit(b != c)
  {
    HalfOf(p, b, x);
    HalfOf(q, c, y);
    XorUp(x, y, p, q, Bit(b != c));
  }

  lemma OneIs(b: bool, c: bool)
    ensures Xor(Bit(b), Bit(c)) == Bit(b != c)
  {
    XorZero(0);
    OneMore(0, b, 0, c, Bit(b), Bit(c));
  }

  function Three(a: bool, b: bool, c: bool): nat { 2 * (2 * Bit(a) + Bit(b)) + Bit(c) }

  lemma NumIs(x: Sym)
    ensures x.Num() == 2 * (2 * Three(x.a, x.b, x.c) + Bit(x.d)) + Bit(x.e)
  {
  }

  lemma ThreePlus(a: bool, b: bool, c: bool, a': bool, b': bool, c': bool, m: nat, n: nat)
    requires m == Three(a, b, c) && n == Three(a', b', c')
    ensures Xor(m, n) == Three(a != a', b != b', c != c')
  {
    var p, q := 2 * Bit(a) + Bit(b), 2 * Bit(a') + Bit(b');
    OneIs(a, a');
    OneMore(Bit(a), b, Bit(a'), b', p, q);
    OneMore(p, c, q, c', m, n);
  }

  lemma MorePlus(p: nat, q: nat, r: nat, d: bool, e: bool, d': bool, e': bool, m: nat, n: nat)
    requires r == Xor(p, q) && m == 2 * (2 * p + Bit(d)) + Bit(e) && n == 2 * (2 * q + Bit(d')) + Bit(e')
    ensures Xor(m, n) == 2 * (2 * r + Bit(d != d')) + Bit(e != e')
  {
    OneMore(p, d, q, d', 2 * p + Bit(d), 2 * q + Bit(d'));
    OneMore(2 * p + Bit(d), e, 2 * q + Bit(d'), e', m, n);
  }

  lemma SymPlus(x: Sym, y: Sym)
    ensures Xor(x.Num(), y.Num()) == x.Plus(y).Num()
  {
    NumIs(x);
    NumIs(y);
    NumIs(x.Plus(y));
    var p, q := Three(x.a, x.b, x.c), Three(y.a, y.b, y.c);
    ThreePlus(x.a, x.b, x.c, y.a, y.b, y.c, p, q);
    MorePlus(p, q, Three(x.a != y.a, x.b != y.b, x.c != y.c), x.d, x.e, y.d, y.e, x.Num(), y.Num());
  }

  lemma PackPlus(u: seq<nat>, v: seq<nat>, r: seq<nat>)
    requires |u| == |v| == |r| == 6 && Symbols(u) && Symbols(v) && forall i :: 0 <= i < 6 ==> r[i] == Xor(u[i], v[i])
    ensures Xor(Pack(u), Pack(v)) == Pack(r)
  {
    PackSum(u, v);
    assert r == Sum(Gf(), u, v);
  }

  lemma PlusAt(x: Six, y: Six, i: int)
    requires 0 <= i < 6
    ensures x.Plus(y).At(i) == x.At(i).Plus(y.At(i))
  {
  }

  lemma NumsPlus(x: Six, y: Six, i: int)
    requires 0 <= i < 6
    ensures x.Plus(y).Nums()[i] == Xor(x.Nums()[i], y.Nums()[i])
  {
    PlusAt(x, y, i);
    NumsAt(x, i, x.At(i));
    NumsAt(y, i, y.At(i));
    NumsAt(x.Plus(y), i, x.At(i).Plus(y.At(i)));
    SymPlus(x.At(i), y.At(i));
  }

  lemma NumsAt(x: Six, i: int, t: Sym)
    requires 0 <= i < 6 && x.At(i) == t
    ensures x.Nums()[i] == t.Num()
  {
  }

  lemma SixPlus(x: Six, y: Six)
    ensures Xor(x.Num(), y.Num()) == x.Plus(y).Num()
  {
    forall i | 0 <= i < 6 ensures x.Plus(y).Nums()[i] == Xor(x.Nums()[i], y.Nums()[i]) { NumsPlus(x, y, i); }
    PackPlus(x.Nums(), y.Nums(), x.Plus(y).Nums());
  }

  // ----- one step

  lemma TopBit(s: nat, n: nat)
    requires n < 5
    ensures HasBit(s * 0x200_0000, 25 + n) <==> s / Pow2(n) % 2 == 1
  {
    Powers();
    Pow2Add(25, n);
    DivCancel(s, 0x200_0000, Pow2(n));
  }

  lemma DivCancel(s: nat, m: nat, w: nat)
    requires m > 0 && w > 0
    ensures m * w > 0 && s * m / (m * w) == s / w >= 0
  {
    var q, r := s / w, s % w;
    assert s == q * w + r;
    assert s * m == q * (m * w) + r * m;
    assert 0 <= r * m < m * w;
    ModIs(r * m, q, m * w, s * m);
  }

  lemma FoldedStep(s: nat, c: nat, n: nat)
    requires n < 5 && c == s * 0x200_0000
    ensures Shifted(c, n + 1) == if s / Pow2(n) % 2 == 1 then Xor(Shifted(c, n), Multiple(n)) else Shifted(c, n)
  {
    TopBit(s, n);
    if !HasBit(c, 25 + n) { NothingAdded(c, n); }
  }

  lemma PackTop(s: seq<nat>)
    requires |s| == 6 && Symbols(s)
    ensures Pack(s) == Xor(s[0] * 0x200_0000, Pack(s[1..])) && Pack(s[1..]) < 0x200_0000
  {
    var rest := s[1..];
    PackFits(rest);
    PackSix(s);
    PackSix([0] + rest);
    PackZeroFirst(rest);
    Powers();
    XorDisjoint(s[0], Pack(rest), 25);
  }

  lemma {:induction false} PackZeroFirst(v: seq<nat>)
    ensures Pack([0] + v) == Pack(v)
  {
    var w := [0] + v;
    if v == [] {
      assert w[..0] == [];
    } else {
      var n := |v| - 1;
      PackZeroFirst(v[..n]);
      assert w[..|w| - 1] == [0] + v[..n];
    }
  }

  lemma TimesXTop(s: seq<nat>)
    requires |s| == 6 && Symbols(s)
    ensures TimesX(Pack(s)) == Xor(TimesX(s[0] * 0x200_0000), TimesX(Pack(s[1..])))
  {
    PackTop(s);
    ShiftedLinear(s[0] * 0x200_0000, Pack(s[1..]), 5);
  }

  lemma PackAppended(rest: seq<nat>, v: nat)
    requires |rest| == 5 && Symbols(rest) && v < 32
    ensures Xor(TimesX(Pack(rest)), v) == Pack(rest + [v])
  {
    PackFits(rest);
    Appended(Pack(rest), v);
    assert (rest + [v])[..5] == rest;
  }

  lemma NumBits(t: Sym)
    ensures t.Num() / Pow2(0) % 2 == Bit(t.e) && t.Num() / Pow2(1) % 2 == Bit(t.d) && t.Num() / Pow2(2) % 2 == Bit(t.c)
    ensures t.Num() / Pow2(3) % 2 == Bit(t.b) && t.Num() / Pow2(4) % 2 == Bit(t.a)
  {
    LowPowers();
    NumHalves(t);
  }

  lemma LowPowers()
    ensures Pow2(0) == 1 && Pow2(1) == 2 && Pow2(2) == 4 && Pow2(3) == 8 && Pow2(4) == 16
  {
  }

  lemma NumHalves(t: Sym)
    ensures t.Num() % 2 == Bit(t.e) && t.Num() / 2 % 2 == Bit(t.d) && t.Num() / 4 % 2 == Bit(t.c)
    ensures t.Num() / 8 % 2 == Bit(t.b) && t.Num() / 16 % 2 == Bit(t.a)
  {
  }

  lemma FoldTerm(s: nat, c: nat, n: nat, k: nat, b: bool, x: Six, g: Six)
    requires n < 5 && k == n + 1 && c == s * 0x200_0000 && s / Pow2(n) % 2 == Bit(b) && Shifted(c, n) == x.Num() && Multiple(n) == g.Num()
    ensures Shifted(c, k) == x.Plus(if b then g else ZERO).Num()
  {
    FoldedStep(s, c, n);
    SixPlus(x, g);
    PlusZero(x);
  }

  lemma PlusZero(x: Six)
    ensures x.Plus(ZERO) == x && ZERO.Plus(x) == x
  {
  }

  lemma LowFoldIs(t: Sym, s: nat, c: nat)
    requires s == t.Num() && c == s * 0x200_0000
    ensures Shifted(c, 3) == LowFold(t).Num()
  {
    NumBits(t);
    Generator();
    ZeroIs();
    var x := if t.e then G1 else ZERO;
    PlusZero(x);
    FoldTerm(s, c, 0, 1, t.e, ZERO, G1);
    FoldTerm(s, c, 1, 2, t.d, x, G2);
    FoldTerm(s, c, 2, 3, t.c, x.Plus(if t.d then G2 else ZERO), G4);
  }

  /** What a symbol brings back when it falls off at the top. */
  lemma FoldIs(t: Sym, s: nat, c: nat)
    requires s == t.Num() && c == s * 0x200_0000
    ensures Shifted(c, 5) == Fold(t).Num()
  {
    NumBits(t);
    Generator();
    LowFoldIs(t, s, c);
    FoldTerm(s, c, 3, 4, t.b, LowFold(t), G8);
    FoldTerm(s, c, 4, 5, t.a, LowFold(t).Plus(if t.b then G8 else ZERO), G16);
  }

  lemma MovedNums(x: Six, v: Sym)
    ensures x.Nums()[1..] + [v.Num()] == Six(x.s4, x.s3, x.s2, x.s1, x.s0, v).Nums()
  {
    var w := Six(x.s4, x.s3, x.s2, x.s1, x.s0, v);
    forall i | 0 <= i < 6 ensures (x.Nums()[1..] + [v.Num()])[i] == w.Nums()[i] {
      NumsAt(w, i, w.At(i));
      if i < 5 { NumsAt(x, i + 1, w.At(i)); }
    }
  }

  lemma Moved(x: Six, v: Sym)
    ensures Xor(TimesX(Pack(x.Nums()[1..])), v.Num()) == Six(x.s4, x.s3, x.s2, x.s1, x.s0, v).Num()
  {
    PackAppended(x.Nums()[1..], v.Num());
    MovedNums(x, v);
  }

  /** One step of the remainder, for every remainder and symbol: multiplication by x modulo the documented generator. */
  lemma NextIs(x: Six, v: Sym)
    ensures Xor(TimesX(x.Num()), v.Num()) == x.Next(v).Num()
  {
    TimesXTop(x.Nums());
    Moved(x, v);
    FoldIs(x.s5, x.s5.Num(), x.s5.Num() * 0x200_0000);
    XorAssoc(Fold(x.s5).Num(), TimesX(Pack(x.Nums()[1..])), v.Num());
    SixPlus(Fold(x.s5), Six(x.s4, x.s3, x.s2, x.s1, x.s0, v));
  }

  const UNIT := Six(S0, S0, S0, S0, S0, S1)

  lemma UnitIs()
    ensures UNIT.Num() == 1
  {
    PackSix(UNIT.Nums());
  }

  function Remainder(v: seq<Sym>): Six {
    if v == [] then UNIT else Remainder(v[..|v| - 1]).Next(v[|v| - 1])
  }

  predicate Spells(v: Bytes, u: seq<Sym>) {
    |v| == |u| && forall i :: 0 <= i < |u| ==> v[i] == u[i].Num()
  }

  lemma StepsOn(v: Bytes, x: Six, y: Sym, r: Six)
    requires v != [] && v[|v| - 1] == y.Num() && PolyMod(v[..|v| - 1]) == x.Num() && x.Next(y) == r
    ensures PolyMod(v) == r.Num()
  {
    NextIs(x, y);
  }

  /** The checksum loop computes the remainder of the polynomial with a leading one, symbol by symbol. */
  lemma {:induction false} PolyModIs(v: Bytes, u: seq<Sym>)
    requires Spells(v, u)
    ensures PolyMod(v) == Remainder(u).Num()
  {
    if u == [] {
      UnitIs();
    } else {
      var n := |u| - 1;
      PolyModIs(v[..n], u[..n]);
      StepsOn(v, Remainder(u[..n]), u[n], Remainder(u));
    }
  }

  // ---------------------------------------------------------------- a published string

  lemma NextRow(u: seq<Sym>, n: nat, x: Six, y: Sym, r: Six)
    requires n < |u| && u[n] == y && Remainder(u[..n]) == x && x.Next(y) == r
    ensures Remainder(u[..n + 1]) == r
  {
    assert u[..n + 1][..n] == u[..n];
  }

  lemma NoFold(x: Six, v: Sym)
    requires x.s5 == S0
    ensures x.Next(v) == Six(x.s4, x.s3, x.s2, x.s1, x.s0, v)
  {
    PlusZero(ZERO);
    PlusZero(Six(x.s4, x.s3, x.s2, x.s1, x.s0, v));
  }

  lemma NextPlain(u: seq<Sym>, n: nat, x: Six, y: Sym)
    requires n < |u| && u[n] == y && Remainder(u[..n]) == x && x.s5 == S0
    ensures Remainder(u[..n + 1]) == Six(x.s4, x.s3, x.s2, x.s1, x.s0, y)
  {
    NoFold(x, y);
    NextRow(u, n, x, y, Six(x.s4, x.s3, x.s2, x.s1, x.s0, y));
  }

  lemma FiveRows(u: seq<Sym>)
    requires |u| == 9 && u[0] == S3 && u[1] == S0 && u[2] == S1 && u[3] == S10 && u[4] == S28
    ensures Remainder(u[..5]) == Six(S1, S3, S0, S1, S10, S28)
  {
    NextPlain(u, 0, UNIT, S3);
    NextPlain(u, 1, Six(S0, S0, S0, S0, S1, S3), S0);
    NextPlain(u, 2, Six(S0, S0, S0, S1, S3, S0), S1);
    NextPlain(u, 3, Six(S0, S0, S1, S3, S0, S1), S10);
    NextPlain(u, 4, Six(S0, S1, S3, S0, S1, S10), S28);
  }

  lemma TwoRows(u: seq<Sym>)
    requires |u| == 9 && u[5] == S25 && u[6] == S31 && Remainder(u[..5]) == Six(S1, S3, S0, S1, S10, S28)
    ensures Remainder(u[..7]) == Six(S1, S15, S16, S16, S28, S6)
  {
    NextRow(u, 5, Six(S1, S3, S0, S1, S10, S28), S25, Six(S30, S22, S21, S31, S1, S11));
    NextRow(u, 6, Six(S30, S22, S21, S31, S1, S11), S31, Six(S1, S15, S16, S16, S28, S6));
  }

  lemma LastRows(u: seq<Sym>)
    requires |u| == 9 && u[7] == S20 && u[8] == S31 && Remainder(u[..7]) == Six(S1, S15, S16, S16, S28, S6)
    ensures Remainder(u[..9]) == UNIT
  {
    NextRow(u, 7, Six(S1, S15, S16, S16, S28, S6), S20, Six(S18, S6, S4, S9, S27, S6));
    NextRow(u, 8, Six(S18, S6, S4, S9, S27, S6), S31, UNIT);
  }

  lemma VectorSum(v: Bytes)
    requires |v| == 9 && v[0] == 3 && v[1] == 0 && v[2] == 1 && v[3] == 10 && v[4] == 28 && v[5] == 25
    requires v[6] == 31 && v[7] == 20 && v[8] == 31
    ensures PolyMod(v) == 1
  {
    var u := [S3, S0, S1, S10, S28, S25, S31, S20, S31];
    VectorSpelt(v, u);
    PolyModIs(v, u);
    VectorRemainder(u);
    assert u[..9] == u;
    UnitIs();
  }

  lemma VectorSpelt(v: Bytes, u: seq<Sym>)
    requires |v| == 9 && v[0] == 3 && v[1] == 0 && v[2] == 1 && v[3] == 10 && v[4] == 28 && v[5] == 25
    requires v[6] == 31 && v[7] == 20 && v[8] == 31 && u == [S3, S0, S1, S10, S28, S25, S31, S20, S31]
    ensures Spells(v, u)
  {
  }

  lemma VectorRemainder(u: seq<Sym>)
    requires |u| == 9 && u[0] == S3 && u[1] == S0 && u[2] == S1 && u[3] == S10 && u[4] == S28 && u[5] == S25
    requires u[6] == S31 && u[7] == S20 && u[8] == S31
    ensures Remainder(u[..9]) == UNIT
  {
    FiveRows(u);
    TwoRows(u);
    LastRows(u);
  }

  lemma VectorVerifies(hrp: Bytes, sum: Bytes)
    requires |hrp| == 1 && hrp[0] == 97
    requires |sum| == 6 && sum[0] == 10 && sum[1] == 28 && sum[2] == 25 && sum[3] == 31 && sum[4] == 20 && sum[5] == 31
    ensures VerifyChecksum(hrp, sum)
  {
    VectorPrefix(hrp);
    VectorJoined(ExpandHrp(hrp), sum);
  }

  lemma VectorJoined(r: Bytes, sum: Bytes)
    requires |r| == 3 && r[0] == 3 && r[1] == 0 && r[2] == 1
    requires |sum| == 6 && sum[0] == 10 && sum[1] == 28 && sum[2] == 25 && sum[3] == 31 && sum[4] == 20 && sum[5] == 31
    ensures PolyMod(r + sum) == 1
  {
    VectorSum(r + sum);
  }

  lemma VectorPrefix(hrp: Bytes)
    requires |hrp| == 1 && hrp[0] == 97
    ensures var r := ExpandHrp(hrp); |r| == 3 && r[0] == 3 && r[1] == 0 && r[2] == 1
  {
    var r := ExpandHrp(hrp);
    ExpandExact(hrp, r);
    assert Halved(hrp, r, 0);
  }

  lemma VectorEncodes(hrp: Bytes, sum: Bytes)
    requires Symbols(sum) && |sum| == 6 && VerifyChecksum(hrp, sum)
    ensures Encode(hrp, []) == hrp + [ONE] + Chars(sum)
  {
    EncodeVerified(hrp, sum);
    assert sum[..|sum| - 6] == [];
  }

  lemma VectorChars(h: Bytes, sum: Bytes)
    requires |h| == 1 && h[0] == 97
    requires |sum| == 6 && sum[0] == 10 && sum[1] == 28 && sum[2] == 25 && sum[3] == 31 && sum[4] == 20 && sum[5] == 31
    ensures Symbols(sum) && h + [ONE] + Chars(sum) == Ascii("a12uel5l") == Lowered(Ascii("A12UEL5L"))
  {
  }

  lemma PublishedEncoding(h: Bytes, sum: Bytes)
    requires |h| == 1 && h[0] == 97
    requires |sum| == 6 && sum[0] == 10 && sum[1] == 28 && sum[2] == 25 && sum[3] == 31 && sum[4] == 20 && sum[5] == 31
    ensures Encode(h, []) == Ascii("a12uel5l") == Lowered(Ascii("A12UEL5L"))
  {
    VectorChars(h, sum);
    VectorVerifies(h, sum);
    VectorEncodes(h, sum);
  }

  /** The valid string of bech32_tests.cpp:28, prefix "a" without data. */
  lemma PublishedString()
    ensures Encode(Ascii("a"), []) == Ascii("a12uel5l")
    ensures Decode(Ascii("A12UEL5L")) == Some((Ascii("a"), []))
  {
    PublishedEncoding(Ascii("a"), [10, 28, 25, 31, 20, 31]);
    VectorPlain(Ascii("A12UEL5L"));
    PublishedDecodes(Ascii("A12UEL5L"), Ascii("a"));
  }

  lemma PublishedDecodes(s: Bytes, h: Bytes)
    requires Plain(s) && |s| == 8 && |h| == 1 && Encode(h, []) == Lowered(s)
    ensures Decode(s) == Some((h, []))
  {
    PlainIs(s);
    EncodingDecodes(s, h, []);
  }

  lemma VectorPlain(s: Bytes)
    requires s == Ascii("A12UEL5L")
    ensures Plain(s) && |s| == 8
  {
  }
}
