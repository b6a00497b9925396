/** The 32-bit "compact" difficulty format of src/arith_uint256.cpp:224-265, a base-256 floating point number. */
module Compact {
  import opened Basics
  import opened Limbs
  import opened ArithUint

  datatype Decoded = Decoded(value: nat, negative: bool, overflow: bool)

  const WIDTH: nat := 8
  const SIGN: nat := 0x80_0000
  const TOP: nat := 0x100_0000

  function Size(c: U32): nat { c / TOP }
  function Word(c: U32): nat { c % SIGN }
  predicate Negative(c: U32) { c / SIGN % 2 == 1 }

  /** m units of 256^(s - 3). */
  function Units(m: nat, s: nat): nat
    requires s > 3
  {
    m * Pow2(8 * (s - 3))
  }

  function Quot(x: nat, k: nat): nat {
    DivMod(x, Pow2(k));
    x / Pow2(k)
  }

  predicate Overflows(size: nat, word: nat) {
    word != 0 && (size > 34 || (word > 0xff && size > 33) || (word > 0xffff && size > 32))
  }

  /** The mantissa, shifted down where the number has fewer than three bytes. */
  function Shifted(c: U32): nat {
    if Size(c) <= 3 then Quot(Word(c), 8 * (3 - Size(c))) else Word(c)
  }

  /** Lines 224-242. */
  function Decode(c: U32): Decoded {
    var size := Size(c);
    var word := Shifted(c);
    Decoded(
      if size <= 3 then word else Units(word, size) % Weight(WIDTH),
      word != 0 && Negative(c),
      Overflows(size, word))
  }

  /** x with its unit at 256^(s - 3). */
  function Scaled(x: nat, s: nat): nat {
    if s <= 3 then x * Pow2(8 * (3 - s)) else Quot(x, 8 * (s - 3))
  }

  function ByteLen(x: nat): nat { (BitLen(x) + 7) / 8 }

  /** Lines 244-262, the sign bit left out. */
  function Unsigned(x: nat): nat {
    Assembled(ByteLen(x), Scaled(x, ByteLen(x)))
  }

  function Assembled(size: nat, word: nat): nat {
    if word / SIGN % 2 == 1 then (size + 1) * TOP + word / 256 else size * TOP + word
  }

  /** The three fields of a compact number do not overlap. */
  lemma Fields(s: nat, m: nat)
    requires s < 256 && m < SIGN
    ensures var c := s * TOP + m;
            && c + SIGN < B
            && Size(c) == s && Word(c) == m && !Negative(c)
            && Size(c + SIGN) == s && Word(c + SIGN) == m && Negative(c + SIGN)
  {
  }

  lemma SignBit(word: nat)
    requires word < TOP
    ensures word / SIGN % 2 == 1 <==> word >= SIGN
  {
  }

  // ---------------------------------------------------------------- the normal form

  lemma QuotBounds(x: nat, n: nat, k: nat)
    requires 0 < n && k < n && Pow2(n - 1) <= x < Pow2(n)
    ensures Pow2(n - 1 - k) <= Quot(x, k) < Pow2(n - k)
  {
    var p, q := Pow2(k), Quot(x, k);
    DivMod(x, p);
    Pow2Add(n - 1 - k, k);
    Pow2Add(n - k, k);
    if q < Pow2(n - 1 - k) { MulGap(q, Pow2(n - 1 - k), p); }
    if q >= Pow2(n - k) { MulLe(Pow2(n - k), q, p); }
  }

  lemma ScaledBounds(x: nat, n: nat, s: nat)
    requires 0 < n && 8 * s < n + 24 && Pow2(n - 1) <= x < Pow2(n)
    ensures Pow2(n + 23 - 8 * s) <= Scaled(x, s) < Pow2(n + 24 - 8 * s)
  {
    if s <= 3 {
      var k := 8 * (3 - s);
      Pow2Add(n - 1, k);
      Pow2Add(n, k);
      MulLe(Pow2(n - 1), x, Pow2(k));
      MulGap(x, Pow2(n), Pow2(k));
    } else {
      QuotBounds(x, n, 8 * (s - 3));
    }
  }

  /** Dividing the scaled number by 256 is scaling it by one byte more. */
  lemma ScaledNext(x: nat, s: nat)
    ensures Scaled(x, s) / 256 == Scaled(x, s + 1)
  {
    Pow32();
    if s < 3 {
      Pow2Add(8 * (2 - s), 8);
      Regroup(x, Pow2(8 * (2 - s)), 0, 256);
      ModIs(0, x * Pow2(8 * (2 - s)), 256, Scaled(x, s));
    } else if s == 3 {
      assert Scaled(x, 3) == x && Scaled(x, 4) == x / 256;
    } else {
      QuotQuot(x, 8 * (s - 3));
    }
  }

  lemma QuotQuot(x: nat, k: nat)
    ensures Quot(x, k) / 256 == Quot(x, k + 8)
  {
    Pow32();
    Pow2Add(k, 8);
    var p, q := Pow2(k), Quot(x, k);
    DivMod(x, p);
    DivMod(q, 256);
    var r, t := q / 256, q % 256;
    Regroup(r, 256, t, p);
    MulGap(t, 256, p);
    ModIs(t * p + x % p, r, 256 * p, x);
  }

  lemma Powers()
    ensures Pow2(15) == 0x8000 && Pow2(23) == SIGN && Pow2(24) == TOP
  {
    Pow32();
    assert Pow2(7) == 128;
    Pow2Add(7, 8);
    Pow2Add(7, 16);
  }

  function Exponent(x: nat): nat { BitLen(x) / 8 + 1 }

  lemma MantissaBounds(x: nat)
    requires x > 0
    ensures 0x8000 <= Scaled(x, Exponent(x)) < SIGN
  {
    var n, s := BitLen(x), Exponent(x);
    BitLenBounds(x);
    Powers();
    ScaledBounds(x, n, s);
    Pow2Grows(15, n + 23 - 8 * s);
    Pow2Grows(n + 24 - 8 * s, 23);
  }

  /** The exponent and mantissa of a positive number. */
  lemma NormalForm(x: nat)
    requires x > 0
    ensures Unsigned(x) == Exponent(x) * TOP + Scaled(x, Exponent(x)) && 0x8000 <= Scaled(x, Exponent(x)) < SIGN
  {
    MantissaBounds(x);
    var n, s, size := BitLen(x), Exponent(x), ByteLen(x);
    if n % 8 == 0 {
      assert size == s - 1;
      BitLenBounds(x);
      ScaledBounds(x, n, size);
      Powers();
      SignBit(Scaled(x, size));
      ScaledNext(x, size);
    } else {
      assert size == s;
      SignBit(Scaled(x, size));
    }
  }

  lemma ExponentBound(x: nat)
    requires x < Weight(WIDTH)
    ensures Exponent(x) <= 33
  {
    BitLenBounds(x);
    if BitLen(x) > 256 { Pow2Grows(256, BitLen(x) - 1); }
  }

  lemma UnsignedZero()
    ensures Unsigned(0) == 0
  {
    var s := ByteLen(0);
    assert s == 0 && Scaled(0, s) == 0 * Pow2(8 * (3 - s));
  }

  lemma UnsignedFits(x: nat)
    requires x < Weight(WIDTH)
    ensures Unsigned(x) + SIGN < B
    ensures x > 0 ==> Size(Unsigned(x)) == Exponent(x) && Word(Unsigned(x)) == Scaled(x, Exponent(x))
    ensures !Negative(Unsigned(x))
  {
    if x > 0 {
      NormalForm(x);
      ExponentBound(x);
      Fields(Exponent(x), Scaled(x, Exponent(x)));
    } else {
      UnsignedZero();
    }
  }

  /** Lines 244-265. */
  function Encode(x: nat, negative: bool): U32
    requires x < Weight(WIDTH)
  {
    UnsignedFits(x);
    WithSign(Unsigned(x), negative)
  }

  /** Line 263: zero takes no sign. */
  function WithSign(c: U32, negative: bool): U32
    requires c + SIGN < B
  {
    if negative && Word(c) != 0 then c + SIGN else c
  }

  // ---------------------------------------------------------------- theorems

  lemma FitsExact(word: nat, k: nat)
    requires k <= 256
    ensures word * Pow2(k) >= Weight(WIDTH) <==> word >= Pow2(256 - k)
  {
    Pow2Add(256 - k, k);
    if word < Pow2(256 - k) { MulGap(word, Pow2(256 - k), Pow2(k)); } else { MulLe(Pow2(256 - k), word, Pow2(k)); }
  }

  lemma OverflowsExact(size: nat, word: nat)
    requires size > 3 && word < SIGN
    ensures Overflows(size, word) <==> Units(word, size) >= Weight(WIDTH)
  {
    var k := 8 * (size - 3);
    if size <= 34 {
      Powers();
      Pow32();
      if size <= 32 { Pow2Grows(23, 256 - k); }
      FitsExact(word, k);
    } else {
      Pow2Grows(256, k);
      MulLe(if word == 0 then 0 else 1, word, Pow2(k));
    }
  }

  /** The overflow flag tells exactly whether the denoted number needs more than 256 bits. */
  lemma OverflowExact(c: U32)
    ensures Decode(c).overflow <==> Size(c) > 3 && Units(Word(c), Size(c)) >= Weight(WIDTH)
  {
    if Size(c) > 3 { OverflowsExact(Size(c), Word(c)); }
  }

  lemma DecodeSmall(c: U32, x: nat)
    requires Size(c) <= 3 && !Negative(c) && Word(c) == x * Pow2(8 * (3 - Size(c)))
    ensures Decode(c) == Decoded(x, false, false)
  {
    ModIs(0, x, Pow2(8 * (3 - Size(c))), Word(c));
  }

  lemma DecodeLarge(c: U32)
    requires Size(c) > 3 && !Negative(c) && Units(Word(c), Size(c)) < Weight(WIDTH)
    ensures Decode(c) == Decoded(Units(Word(c), Size(c)), false, false)
  {
    OverflowExact(c);
    var y := Units(Word(c), Size(c));
    ModIs(y, 0, Weight(WIDTH), y);
  }

  /** What survives a round trip: everything for three bytes or less, otherwise a multiple of the unit. */
  lemma DecodedValue(x: nat)
    requires 0 < x < Weight(WIDTH)
    ensures var s := Exponent(x);
            Decode(Encode(x, false)) == Decoded(if s <= 3 then x else Units(Scaled(x, s), s), false, false)
  {
    UnsignedFits(x);
    var s := Exponent(x);
    if s <= 3 {
      DecodeSmall(Encode(x, false), x);
    } else {
      DivMod(x, Pow2(8 * (s - 3)));
      DecodeLarge(Encode(x, false));
    }
  }

  /** A round trip rounds down, by less than one part in 2^15, and is then stable. */
  lemma RoundTrip(x: nat)
    requires x < Weight(WIDTH)
    ensures var d := Decode(Encode(x, false));
            && !d.negative && !d.overflow
            && d.value <= x && (x > 0 ==> (x - d.value) * 0x8000 < x)
            && Encode(d.value, false) == Encode(x, false)
  {
    if x > 0 {
      NormalForm(x);
      DecodedValue(x);
      var s, y := Exponent(x), Decode(Encode(x, false)).value;
      if s > 3 {
        var u, m := Pow2(8 * (s - 3)), Scaled(x, s);
        DivMod(x, u);
        MulLe(0x8000, m, u);
        SameForm(x);
      }
    } else {
      UnsignedZero();
    }
  }

  /** Rounding down to a multiple of the unit keeps the exponent and the mantissa. */
  lemma SameForm(x: nat)
    requires 0 < x && Exponent(x) > 3
    ensures var s := Exponent(x);
            var y := Units(Scaled(x, s), s);
            0 < y <= x && Unsigned(y) == Unsigned(x)
  {
    var s := Exponent(x);
    DivMod(x, Pow2(8 * (s - 3)));
    NormalForm(x);
    FormIs(s, Scaled(x, s));
  }

  lemma FormIs(s: nat, m: nat)
    requires s > 3 && 0x8000 <= m < SIGN
    ensures var y := Units(m, s); y > 0 && Unsigned(y) == s * TOP + m
  {
    var u := Pow2(8 * (s - 3));
    var y := m * u;
    SizeIs(y, s, m);
    NormalForm(y);
    ModIs(0, m, u, y);
  }

  /** A number of m units, m a full mantissa, has exponent s. */
  lemma SizeIs(y: nat, s: nat, m: nat)
    requires s > 3 && 0x8000 <= m < SIGN && y == Units(m, s)
    ensures y > 0 && BitLen(y) / 8 + 1 == s
  {
    var k := 8 * (s - 3);
    Powers();
    Pow2Add(15, k);
    Pow2Add(23, k);
    MulLe(0x8000, m, Pow2(k));
    MulGap(m, SIGN, Pow2(k));
    BitLenBounds(y);
    var n := BitLen(y);
    if n < 16 + k { Pow2Grows(n, 15 + k); }
    if n > 23 + k { Pow2Grows(23 + k, n - 1); }
  }

  /** The compact form orders numbers as 32-bit integers. */
  lemma Monotone(x: nat, y: nat)
    requires x <= y < Weight(WIDTH)
    ensures Encode(x, false) <= Encode(y, false)
  {
    if x == 0 {
      UnsignedZero();
    } else {
      NormalForm(x);
      NormalForm(y);
      BitLenGrows(x, y);
      if Exponent(x) == Exponent(y) { ScaledMonotone(x, y, Exponent(x)); }
    }
  }

  lemma ScaledMonotone(x: nat, y: nat, s: nat)
    requires x <= y
    ensures Scaled(x, s) <= Scaled(y, s)
  {
    if s <= 3 { MulLe(x, y, Pow2(8 * (3 - s))); } else { QuotMonotone(x, y, 8 * (s - 3)); }
  }

  lemma QuotMonotone(x: nat, y: nat, k: nat)
    requires x <= y
    ensures Quot(x, k) <= Quot(y, k)
  {
    var p := Pow2(k);
    DivMod(x, p);
    DivMod(y, p);
    if Quot(y, k) < Quot(x, k) { MulGap(Quot(y, k), Quot(x, k), p); }
  }

  /** Every number but zero keeps a sign it is encoded with. */
  lemma SignedRoundTrip(x: nat)
    requires x < Weight(WIDTH)
    ensures Decode(Encode(x, true)) == Decode(Encode(x, false)).(negative := x > 0)
  {
    UnsignedFits(x);
    if x > 0 {
      NormalForm(x);
      ExponentBound(x);
      Fields(Exponent(x), Scaled(x, Exponent(x)));
      DecodeSign(Unsigned(x));
      DecodedPositive(x);
    } else {
      UnsignedZero();
    }
  }

  /** The word that decoding shifts down is not lost: it is the number itself. */
  lemma DecodedPositive(x: nat)
    requires 0 < x < Weight(WIDTH)
    ensures Shifted(Encode(x, false)) != 0
  {
    UnsignedFits(x);
    NormalForm(x);
    var s := Exponent(x);
    if s <= 3 { ModIs(0, x, Pow2(8 * (3 - s)), Scaled(x, s)); }
  }

  lemma DecodeSign(c: U32)
    requires !Negative(c) && c + SIGN < B && Size(c + SIGN) == Size(c) && Word(c + SIGN) == Word(c) && Negative(c + SIGN)
    ensures Decode(c + SIGN) == Decode(c).(negative := Shifted(c) != 0)
  {
  }

  /** The encodings that come from a number: a full mantissa without fraction that fits, or zero. */
  predicate Canonical(c: U32) {
    var size, word := Size(c), Word(c);
    || c == 0
    || (&& !Negative(c) && !Decode(c).overflow && 1 <= size && 0x8000 <= word
        && (size <= 3 ==> word % Pow2(8 * (3 - size)) == 0))
  }

  /** Exactly the canonical encodings survive decoding and encoding again. */
  lemma CanonicalExact(c: U32)
    ensures Decode(c).value < Weight(WIDTH)
    ensures Encode(Decode(c).value, false) == c <==> Canonical(c)
  {
    DecodedFits(c);
    if Canonical(c) && c != 0 {
      CanonicalBack(c);
    } else if c == 0 {
      UnsignedZero();
    }
    if Encode(Decode(c).value, false) == c && c != 0 {
      EncodedCanonical(Decode(c).value);
    }
  }

  lemma DecodedFits(c: U32)
    ensures Decode(c).value < Weight(WIDTH)
  {
    Powers();
    Pow2Grows(23, 256);
    if Size(c) <= 3 {
      var k := 8 * (3 - Size(c));
      DivMod(Word(c), Pow2(k));
      MulLe(1, Pow2(k), Quot(Word(c), k));
    }
  }

  lemma EncodedCanonical(x: nat)
    requires x < Weight(WIDTH)
    ensures Canonical(Encode(x, false))
  {
    UnsignedFits(x);
    if x > 0 {
      NormalForm(x);
      DecodedValue(x);
      var s := Exponent(x);
      if s <= 3 { ModIs(0, x, Pow2(8 * (3 - s)), Scaled(x, s)); }
    } else {
      UnsignedZero();
    }
  }

  lemma CanonicalBack(c: U32)
    requires c != 0 && Canonical(c)
    ensures Decode(c).value < Weight(WIDTH) && Encode(Decode(c).value, false) == c
  {
    DecodedFits(c);
    var s, m := Size(c), Word(c);
    if s <= 3 {
      SmallBack(c);
    } else {
      OverflowExact(c);
      DecodeLarge(c);
      FormIs(s, m);
      Whole(c);
    }
  }

  lemma Whole(c: U32)
    requires !Negative(c)
    ensures c == Size(c) * TOP + Word(c)
  {
  }

  lemma SmallBack(c: U32)
    requires c != 0 && Canonical(c) && Size(c) <= 3
    ensures Unsigned(Decode(c).value) == c
  {
    var s, m, y := Size(c), Word(c), Decode(c).value;
    var k := 8 * (3 - s);
    DivMod(m, Pow2(k));
    SmallSizeIs(y, s, m);
    NormalForm(y);
    Whole(c);
  }

  lemma SmallSizeIs(y: nat, s: nat, m: nat)
    requires 1 <= s <= 3 && 0x8000 <= m < SIGN && y * Pow2(8 * (3 - s)) == m
    ensures y > 0 && BitLen(y) / 8 + 1 == s
  {
    var k := 8 * (3 - s);
    Powers();
    BitLenBounds(y);
    var n := BitLen(y);
    Pow2Add(23 - k, k);
    if k < 16 {
      Pow2Add(15 - k, k);
      if y < Pow2(15 - k) { MulGap(y, Pow2(15 - k), Pow2(k)); }
    }
    if y >= Pow2(23 - k) { MulLe(Pow2(23 - k), y, Pow2(k)); }
    if n < 16 - k { Pow2Grows(n, 15 - k); }
    if n > 23 - k { Pow2Grows(23 - k, n - 1); }
  }

  // ---------------------------------------------------------------- in place

  method SetCompact(n: BaseUint, c: U32) returns (negative: bool, overflow: bool)
    requires n.pn.Length == WIDTH
    modifies n.pn
    ensures Decode(c) == Decoded(n.Val(), negative, overflow)
  {
    var size, word := Size(c), Word(c);
    DecodedFits(c);
    if size <= 3 {
      word := Shifted(c);
      n.Assign64(word);
    } else {
      n.Assign64(word);
      n.ShlAssign(8 * (size - 3));
    }
    negative := word != 0 && Negative(c);
    overflow := Overflows(size, word);
  }

  /** Lines 246-253: the top three bytes, through a 64-bit and then a 32-bit cast. */
  method Mantissa(n: BaseUint, size: nat) returns (word: nat)
    requires n.pn.Length == WIDTH && size == ByteLen(n.Val())
    ensures word == Scaled(n.Val(), size) < TOP
  {
    ghost var m := Scaled(n.Val(), size);
    ScaledSmall(n.Val());
    Casts(m);
    if size <= 3 {
      SmallLow(n.Val());
      var low := n.GetLow64();
      var shifted := low * Pow2(8 * (3 - size));
      assert shifted == m;
      word := shifted % B;
    } else {
      var bn := new BaseUint.Copy(n);
      bn.ShrAssign(8 * (size - 3));
      assert bn.Val() == m;
      word := bn.GetLow64();
      word := word % B;
    }
  }

  method GetCompact(n: BaseUint, negative: bool) returns (c: U32)
    requires n.pn.Length == WIDTH
    ensures n.Val() < Weight(WIDTH) && c == Encode(n.Val(), negative)
  {
    NumBound(n.pn[..], WIDTH);
    var bits := n.Bits();
    var size := (bits + 7) / 8;
    var word := Mantissa(n, size);
    UnsignedFits(n.Val());
    var u := Assemble(size, word);
    c := WithSign(u, negative);
  }

  /** Lines 254-262: where the sign bit is taken the mantissa moves down a byte. */
  method Assemble(nSize: nat, nWord: nat) returns (c: nat)
    ensures c == Assembled(nSize, nWord)
  {
    var size, word := nSize, nWord;
    if word / SIGN % 2 == 1 {
      word := word / 256;
      size := size + 1;
    }
    c := word + size * TOP;
  }

  lemma Casts(m: nat)
    requires m < TOP
    ensures m % B == m && m % (B * B) == m
  {
  }

  lemma ScaledSmall(x: nat)
    ensures Scaled(x, ByteLen(x)) < TOP
  {
    if x > 0 {
      var n, s := BitLen(x), ByteLen(x);
      BitLenBounds(x);
      ScaledBounds(x, n, s);
      Powers();
      Pow2Grows(n + 24 - 8 * s, 24);
    } else {
      assert BitLen(0) == 0;
    }
  }

  lemma SmallLow(x: nat)
    requires ByteLen(x) <= 3
    ensures x % (B * B) == x
  {
    BitLenBounds(x);
    Pow2Grows(BitLen(x), 24);
    Powers();
  }
}
