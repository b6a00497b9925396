/**
 * The formats as the sources document them: the formulas in their comments, and the encodings that comments and unit
 * tests give for particular values.
 */
module Published {
  import opened Basics
  import opened VarInt
  import opened Amounts
  import opened TxCoins
  import opened Compressor
  import opened CoinsCodec
  import B = Base58
  import R = Radix
  import C = Compact
  import L = Limbs

  // ---------------------------------------------------------------- variable-length integers

  function PowerOf128(i: nat): nat { if i == 0 then 1 else 128 * PowerOf128(i - 1) }

  /** The sum of 128^i times the i-th digit from the end plus one, from digit i on. */
  function Higher(a: Bytes, i: nat): nat
    requires i <= |a|
    decreases |a| - i
  {
    if i == |a| then 0 else PowerOf128(i) * (a[|a| - i - 1] % 128 + 1) + Higher(a, i + 1)
  }

  /** The number that bytes stand for, by the formula of src/serialize.h:427. */
  function Denoted(a: Bytes): nat
    requires a != []
  {
    a[|a| - 1] % 128 + Higher(a, 1)
  }

  /** All bytes but the last have the high bit set. */
  predicate Linked(a: Bytes) {
    a != [] && forall i :: 0 <= i < |a| ==> (a[i] >= 128 <==> i < |a| - 1)
  }

  lemma {:induction false} HigherUp(a: Bytes, b: Byte, i: nat)
    requires i <= |a|
    ensures Higher(a + [b], i + 1) == 128 * Higher(a, i)
    decreases |a| - i
  {
    if i < |a| {
      HigherUp(a, b, i + 1);
      var p, d := PowerOf128(i), a[|a| - i - 1] % 128 + 1;
      assert (a + [b])[|a| - i - 1] == a[|a| - i - 1];
      Times128(p, d);
    }
  }

  lemma Times128(p: nat, d: nat)
    ensures 128 * p * d == 128 * (p * d)
  {
  }

  lemma {:induction false} ContinuedDenotes(n: nat)
    ensures var a := Continued(n); Higher(a, 0) == n + 1 && forall i :: 0 <= i < |a| ==> a[i] >= 128
    ensures Continued(n) != []
  {
    var b: Byte := n % 128 + 128;
    if n <= 0x7F {
      assert Continued(n) == [b] && Higher([b], 1) == 0;
    } else {
      var q := n / 128 - 1;
      ContinuedDenotes(q);
      HigherUp(Continued(q), b, 0);
      assert Continued(n) == Continued(q) + [b];
      LastDigitAdds(Continued(q) + [b]);
    }
  }

  lemma LastDigitAdds(a: Bytes)
    requires a != []
    ensures Higher(a, 0) == a[|a| - 1] % 128 + 1 + Higher(a, 1)
  {
  }

  /** Every number is written as linked bytes that stand for it. */
  lemma WriteDenotes(n: nat)
    ensures Linked(Write(n)) && Denoted(Write(n)) == n
  {
    var b: Byte := n % 128;
    if n <= 0x7F {
      assert Write(n) == [b] && Higher([b], 1) == 0;
    } else {
      var q := n / 128 - 1;
      ContinuedDenotes(q);
      HigherUp(Continued(q), b, 0);
      assert Write(n) == Continued(q) + [b];
    }
  }

  lemma WriteSmall(n: nat)
    requires n < 128
    ensures Write(n) == [n] && Continued(n) == [n + 128]
  {
  }

  /** A number of more digits is written as the number one less above the last. */
  lemma WriteMore(n: nat, q: nat, r: nat)
    requires r < 128 && n == 128 * (q + 1) + r
    ensures Write(n) == Continued(q) + [r] && Continued(n) == Continued(q) + [r + 128]
  {
    assert n / 128 == q + 1 && n % 128 == r;
  }

  /** The table of src/serialize.h:437-442, except for two rows. */
  lemma DocumentedIntegers()
    ensures Write(0) == [0x00] && Write(1) == [0x01] && Write(127) == [0x7F] && Write(128) == [0x80, 0x00]
    ensures Write(255) == [0x80, 0x7F] && Write(256) == [0x81, 0x00] && Write(16383) == [0xFE, 0x7F]
    ensures Write(16384) == [0xFF, 0x00] && Write(0x1_0000_0000) == [0x8E, 0xFE, 0xFE, 0xFF, 0x00]
  {
    TwoTo32();
    WriteSmall(0);
    WriteSmall(1);
    WriteSmall(126);
    WriteSmall(127);
    WriteMore(128, 0, 0);
    WriteMore(255, 0, 127);
    WriteMore(256, 1, 0);
    WriteMore(16383, 126, 127);
    WriteMore(16384, 127, 0);
  }

  lemma TwoTo32()
    ensures Write(0x1_0000_0000) == [0x8E, 0xFE, 0xFE, 0xFF, 0x00]
  {
    WriteSmall(14);
    WriteMore(2046, 14, 126);
    WriteMore(262142, 2046, 126);
    WriteMore(33554431, 262142, 127);
    WriteMore(0x1_0000_0000, 33554431, 0);
  }

  /** The two rows that the code does not bear out: 16511 takes two bytes, and 65535 has FE in the middle. */
  lemma MisprintedIntegers()
    ensures Write(16511) == [0xFF, 0x7F] && Write(16511) != [0x80, 0xFF, 0x7F]
    ensures Write(65535) == [0x82, 0xFE, 0x7F] && Write(65535) != [0x82, 0xFD, 0x7F]
  {
    WriteSmall(127);
    WriteSmall(2);
    WriteMore(16511, 127, 127);
    WriteMore(510, 2, 126);
    WriteMore(65535, 510, 127);
  }

  // ---------------------------------------------------------------- amounts

  lemma CodeOf(m: nat, e: nat, n: nat)
    requires m > 0 && e <= 9 && (e < 9 ==> m % 10 != 0) && n == m * TenTo(e)
    ensures CompressAmount(n) == Combined(m, e)
  {
    StripBack(m, e, 0);
    assert TenTo(e - 0) == TenTo(e);
  }

  /** The code of src/compressor.cpp:148-155 for the amount (10 n + d) 10^e. */
  lemma DocumentedAmount(n: nat, d: nat, e: nat)
    requires 1 <= d <= 9 && e < 9
    ensures CompressAmount((10 * n + d) * TenTo(e)) == 1 + 10 * (9 * n + d - 1) + e
  {
    LastDigit(n, d);
    CodeOf(10 * n + d, e, (10 * n + d) * TenTo(e));
  }

  /** The code for a multiple of 10^9. */
  lemma DocumentedRound(n: nat)
    requires n > 0
    ensures CompressAmount(n * TenTo(9)) == 1 + 10 * (n - 1) + 9
  {
    CodeOf(n, 9, n * TenTo(9));
  }

  lemma Tens()
    ensures TenTo(0) == 1 && TenTo(6) == 1_000_000 && TenTo(8) == 100_000_000 && TenTo(9) == 1_000_000_000
  {
    assert TenTo(3) == 1000;
    assert TenTo(6) == 1000 * TenTo(3);
    assert TenTo(9) == 1000 * TenTo(6);
  }

  /** The pairs of src/test/compress_tests.cpp:42-47. */
  lemma AmountExamples()
    ensures CompressAmount(0) == 0 && CompressAmount(1) == 1 && CompressAmount(1_000_000) == 7
    ensures CompressAmount(100_000_000) == 9 && CompressAmount(5_000_000_000) == 0x32
    ensures CompressAmount(2_100_000_000_000_000) == 0x1406f40
  {
    Tens();
    DocumentedAmount(0, 1, 0);
    DocumentedAmount(0, 1, 6);
    DocumentedAmount(0, 1, 8);
    DocumentedRound(5);
    DocumentedRound(2_100_000);
  }

  // ---------------------------------------------------------------- coin records

  /** The script that pays to a key hash. */
  function ToKeyHash(v: Bytes): Bytes { [0x76, 0xa9, 20] + v + [0x88, 0xac] }

  lemma KeyHashScript(keys: Keys, v: Bytes)
    requires |v| == 20
    ensures WriteScript(keys, ToKeyHash(v)) == [0] + v
  {
    TemplateCompressed(keys, ToKeyHash(v), 0, v);
  }

  lemma {:induction false} OutsSkipped(k: OutCodec, c: Coins, from: nat, n: nat)
    requires AllTaken(k, c) && from + n <= |c.vout| && forall i :: from <= i < from + n ==> c.vout[i].IsNull()
    ensures WriteOuts(k, c, from) == WriteOuts(k, c, from + n)
    decreases n
  {
    if n > 0 { OutsSkipped(k, c, from + 1, n - 1); }
  }

  /** 600 coins, written as 83 58. */
  lemma SixHundred()
    ensures Write(Compress64(60_000_000_000)) == [0x83, 0x58]
  {
    Tens();
    DocumentedRound(60);
    assert Compress64(60_000_000_000) == 600;
    WriteSmall(3);
    WriteMore(600, 3, 88);
  }

  lemma Height203998()
    ensures Write(203998) == [0x8b, 0xb8, 0x5e]
  {
    WriteSmall(11);
    WriteMore(1592, 11, 56);
    WriteMore(203998, 1592, 94);
  }

  lemma SixHundredTo(keys: Keys, v: Bytes)
    requires |v| == 20
    ensures var o := TxOut(60_000_000_000, ToKeyHash(v)); Writable(o) && WriteOut(keys, o) == [0x83, 0x58, 0x00] + v
  {
    SixHundred();
    KeyHashScript(keys, v);
    assert [0x83, 0x58] + ([0] + v) == [0x83, 0x58, 0x00] + v;
  }

  lemma RecordHeader(c: Coins)
    requires |c.vout| == 2 && c.vout[0].IsNull() && !c.vout[1].IsNull() && !c.fCoinBase && !c.IsPruned()
    ensures HeaderCode(c) == 4 && Mask(c, MaskSize(c)) == []
  {
  }

  lemma SecondOut(k: OutCodec, c: Coins)
    requires AllTaken(k, c) && |c.vout| == 2 && c.vout[0].IsNull() && !c.vout[1].IsNull()
    ensures WriteOuts(k, c, 0) == k.write(c.vout[1])
  {
    assert WriteOuts(k, c, 2) == [];
    assert WriteOuts(k, c, 1) == k.write(c.vout[1]) + [];
  }

  /** A record by its parts. */
  lemma RecordOf(k: OutCodec, c: Coins, a: Bytes, b: Bytes, mask: Bytes, outs: Bytes, h: Bytes)
    requires !c.IsPruned() && AllTaken(k, c)
    requires a == Write(c.nVersion) && b == Write(HeaderCode(c) % TWO_32) && mask == Mask(c, MaskSize(c))
    requires outs == WriteOuts(k, c, 0) && h == Write(c.nHeight)
    ensures Serialize(k, c) == a + b + mask + outs + h
  {
    JoinFive(a, b, mask, outs, h);
  }

  lemma JoinFive(a: Bytes, b: Bytes, c: Bytes, d: Bytes, e: Bytes)
    ensures a + b + c + d + e == a + (b + (c + (d + e)))
  {
  }

  lemma RecordNumbers(c: Coins)
    requires |c.vout| == 2 && c.vout[0].IsNull() && !c.vout[1].IsNull() && !c.fCoinBase && c.nVersion == 1 && c.nHeight == 203998
    ensures !c.IsPruned() && Write(c.nVersion) == [0x01] && Write(HeaderCode(c) % TWO_32) == [0x04]
    ensures Mask(c, MaskSize(c)) == [] && Write(c.nHeight) == [0x8b, 0xb8, 0x5e]
  {
    assert c.vout[1] in c.vout;
    RecordHeader(c);
    Height203998();
    WriteSmall(1);
    WriteSmall(4);
  }

  lemma RecordOut(keys: Keys, c: Coins, v: Bytes)
    requires |v| == 20 && |c.vout| == 2 && c.vout[0].IsNull() && c.vout[1] == TxOut(60_000_000_000, ToKeyHash(v))
    ensures AllTaken(Compressed(keys), c) && WriteOuts(Compressed(keys), c, 0) == [0x83, 0x58, 0x00] + v
  {
    SixHundredTo(keys, v);
    SecondOut(Compressed(keys), c);
  }

  /** The first record of src/coins.h:61-73, for any key hash. */
  lemma DocumentedRecord(keys: Keys, c: Coins, v: Bytes)
    requires |v| == 20 && |c.vout| == 2 && c.vout[0].IsNull() && c.vout[1] == TxOut(60_000_000_000, ToKeyHash(v))
    requires !c.fCoinBase && c.nVersion == 1 && c.nHeight == 203998
    ensures !c.IsPruned() && AllTaken(Compressed(keys), c)
    ensures Serialize(Compressed(keys), c) == [0x01] + [0x04] + [] + ([0x83, 0x58, 0x00] + v) + [0x8b, 0xb8, 0x5e]
  {
    RecordNumbers(c);
    RecordOut(keys, c, v);
    RecordOf(Compressed(keys), c, [0x01], [0x04], [], [0x83, 0x58, 0x00] + v, [0x8b, 0xb8, 0x5e]);
  }

  // ----- the second record

  predicate OnlyFourAndSixteen(c: Coins) {
    |c.vout| == 17 && forall i :: 0 <= i < 17 ==> (c.vout[i].IsNull() <==> i != 4 && i != 16)
  }

  lemma LowMask(c: Coins)
    requires OnlyFourAndSixteen(c)
    ensures MaskByte(c, 0) == 0x04
  {
    PackedZero(c, 5, 5);
    assert Packed(c, 4, 6) == 1;
    assert Packed(c, 3, 7) == 2;
    assert Packed(c, 2, 8) == 4;
  }

  lemma HighMask(c: Coins)
    requires OnlyFourAndSixteen(c)
    ensures MaskByte(c, 1) == 0x40
  {
    PackedZero(c, 17, 1);
    assert Packed(c, 16, 2) == 1;
    assert Packed(c, 15, 3) == 2;
    assert Packed(c, 14, 4) == 4;
    assert Packed(c, 13, 5) == 8;
    assert Packed(c, 12, 6) == 16;
    assert Packed(c, 11, 7) == 32;
    assert Packed(c, 10, 8) == 64;
  }

  lemma TwoBytes(m: Bytes)
    requires |m| == 2 && m[0] != 0 && m[1] != 0
    ensures LastUsed(m) == 2 && Nonzero(m) == 2
  {
    assert m[..1][..0] == [] && Nonzero(m[..1]) == 1;
  }

  lemma MaskOfTwo(c: Coins)
    requires OnlyFourAndSixteen(c) && c.fCoinBase && !c.IsPruned()
    ensures Mask(c, MaskSize(c)) == [0x04, 0x40] && HeaderCode(c) == 9
  {
    LowMask(c);
    HighMask(c);
    TwoBytes(Mask(c, 2));
  }

  lemma TwoOuts(k: OutCodec, c: Coins)
    requires AllTaken(k, c) && OnlyFourAndSixteen(c)
    ensures WriteOuts(k, c, 0) == k.write(c.vout[4]) + k.write(c.vout[16])
  {
    OutsSkipped(k, c, 0, 4);
    OutsSkipped(k, c, 5, 11);
    assert WriteOuts(k, c, 17) == [];
    assert WriteOuts(k, c, 16) == k.write(c.vout[16]) + [];
  }

  /** An amount that is no multiple of ten, of less than twenty digits. */
  lemma OddAmount(n: U64, x: nat)
    requires 0 < n <= LAST_SAFE && n % 10 != 0 && x == 9 * n + n % 10 - 9
    ensures Compress64(n) == x
  {
    CodeBound(n);
  }

  lemma FirstAmount(u: U64)
    requires u == 234925952
    ensures Write(Compress64(u)) == [0x86, 0xef, 0x97, 0xd5, 0x79]
  {
    OddAmount(u, 2114333561);
    WriteSmall(6);
    WriteMore(1007, 6, 111);
    WriteMore(129047, 1007, 23);
    WriteMore(16518229, 129047, 85);
    WriteMore(2114333561, 16518229, 121);
  }

  lemma SecondAmount(u: U64)
    requires u == 110397
    ensures Write(Compress64(u)) == [0xbb, 0xd1, 0x23]
  {
    OddAmount(u, 993571);
    WriteSmall(59);
    WriteMore(7761, 59, 81);
    WriteMore(993571, 7761, 35);
  }

  lemma Height120891()
    ensures Write(120891) == [0x86, 0xaf, 0x3b]
  {
    WriteSmall(6);
    WriteMore(943, 6, 47);
    WriteMore(120891, 943, 59);
  }

  lemma OutBytes(keys: Keys, o: TxOut, u: U64, a: Bytes, b: Bytes)
    requires o.nValue == u && Write(Compress64(u)) == a && WriteScript(keys, o.script) == b
    ensures WriteOut(keys, o) == a + b
  {
    assert Unsigned(o.nValue) == u;
  }

  lemma PaysTo(keys: Keys, u: U64, v: Bytes, a: Bytes)
    requires u < TWO_64 / 2 && |v| == 20 && Write(Compress64(u)) == a
    ensures var o := TxOut(u, ToKeyHash(v)); Writable(o) && WriteOut(keys, o) == a + [0x00] + v
  {
    KeyHashScript(keys, v);
    OutBytes(keys, TxOut(u, ToKeyHash(v)), u, a, [0x00] + v);
    assert a + [0x00] + v == a + ([0x00] + v);
  }

  lemma CoinbaseNumbers(c: Coins)
    requires OnlyFourAndSixteen(c) && c.fCoinBase && c.nVersion == 1 && c.nHeight == 120891
    ensures !c.IsPruned() && Write(c.nVersion) == [0x01] && Write(HeaderCode(c) % TWO_32) == [0x09]
    ensures Mask(c, MaskSize(c)) == [0x04, 0x40] && Write(c.nHeight) == [0x86, 0xaf, 0x3b]
  {
    assert c.vout[4] in c.vout;
    MaskOfTwo(c);
    Height120891();
    WriteSmall(1);
    WriteSmall(9);
  }

  function CoinbaseOutBytes(v: Bytes, w: Bytes): Bytes {
    [0x86, 0xef, 0x97, 0xd5, 0x79] + [0x00] + v + ([0xbb, 0xd1, 0x23] + [0x00] + w)
  }

  lemma CoinbaseOuts(keys: Keys, c: Coins, v: Bytes, w: Bytes)
    requires |v| == 20 && |w| == 20 && OnlyFourAndSixteen(c)
    requires c.vout[4] == TxOut(234925952, ToKeyHash(v)) && c.vout[16] == TxOut(110397, ToKeyHash(w))
    ensures AllTaken(Compressed(keys), c) && WriteOuts(Compressed(keys), c, 0) == CoinbaseOutBytes(v, w)
  {
    FirstAmount(234925952);
    SecondAmount(110397);
    PaysTo(keys, 234925952, v, [0x86, 0xef, 0x97, 0xd5, 0x79]);
    PaysTo(keys, 110397, w, [0xbb, 0xd1, 0x23]);
    TwoOuts(Compressed(keys), c);
  }

  /** The second record of src/coins.h:76-93, for any two key hashes. */
  lemma DocumentedCoinbase(keys: Keys, c: Coins, v: Bytes, w: Bytes)
    requires |v| == 20 && |w| == 20 && OnlyFourAndSixteen(c) && c.fCoinBase && c.nVersion == 1 && c.nHeight == 120891
    requires c.vout[4] == TxOut(234925952, ToKeyHash(v)) && c.vout[16] == TxOut(110397, ToKeyHash(w))
    ensures !c.IsPruned() && AllTaken(Compressed(keys), c)
    ensures Serialize(Compressed(keys), c) == [0x01] + [0x09] + [0x04, 0x40] + CoinbaseOutBytes(v, w) + [0x86, 0xaf, 0x3b]
  {
    CoinbaseNumbers(c);
    CoinbaseOuts(keys, c, v, w);
    RecordOf(Compressed(keys), c, [0x01], [0x09], [0x04, 0x40], CoinbaseOutBytes(v, w), [0x86, 0xaf, 0x3b]);
  }

  // ---------------------------------------------------------------- Base58

  /** The alphabet of src/base58.cpp:34. */
  const BASE58: string := "123456789" + "ABCDEFGH" + "JKLMN" + "PQRSTUVWXYZ" + "abcdefghijk" + "mnopqrstuvwxyz"

  /** Neighbouring characters of a run have neighbouring codes. */
  predicate Consecutive(run: string) { forall i :: 0 <= i < |run| ==> run[i] as int == run[0] as int + i }

  lemma Runs()
    ensures Consecutive("123456789")
    ensures Consecutive("ABCDEFGH")
    ensures Consecutive("JKLMN")
    ensures Consecutive("PQRSTUVWXYZ")
    ensures Consecutive("abcdefghijk")
    ensures Consecutive("mnopqrstuvwxyz")
  {
  }

  lemma Alphabet(d: nat)
    requires d < 58
    ensures |BASE58| == 58 && B.CharOf(d) == BASE58[d] as int
  {
    Runs();
  }

  /** A pair of src/test/data/base58_encode_decode.json:3. */
  lemma Base58Example(v: Bytes)
    requires |v| == 1 && v[0] == 0x61
    ensures B.Encode(v) == [0x32, 0x67]
  {
    R.DigitsVal([1, 39], 58);
    assert R.Val([1, 39], 58) == 97;
    assert v[0..] == v && R.Val(v, 256) == 97;
  }

  // ---------------------------------------------------------------- compact numbers

  function SignBit(negative: bool): nat { if negative then C.SIGN else 0 }

  lemma CompactFields(c: U32, s: nat, m: nat, negative: bool)
    requires s < 256 && m < C.SIGN && c == s * C.TOP + m + SignBit(negative)
    ensures C.Size(c) == s && C.Word(c) == m && C.Negative(c) == negative
  {
    C.Fields(s, m);
  }

  lemma CompactSmall(c: U32, w: nat, q: nat)
    requires C.Size(c) <= 3 && w == L.Pow2(8 * (3 - C.Size(c))) && q * w <= C.Word(c) < q * w + w && q != 0
    ensures C.Decode(c) == C.Decoded(q, C.Negative(c), false)
  {
    L.ModIs(C.Word(c) - q * w, q, w, C.Word(c));
  }

  lemma CompactLarge(c: U32, w: nat, v: nat)
    requires 3 < C.Size(c) <= 32 && C.Word(c) != 0 && w == L.Pow2(8 * (C.Size(c) - 3)) && v == C.Word(c) * w
    ensures C.Decode(c) == C.Decoded(v, C.Negative(c), false)
  {
    C.OverflowExact(c);
    L.ModIs(v, 0, L.Weight(C.WIDTH), v);
  }

  lemma CompactHuge(c: U32)
    requires C.Size(c) > 34 && C.Word(c) != 0
    ensures C.Decode(c).overflow && C.Decode(c).negative == C.Negative(c)
  {
  }

  /** Numbers of up to three bytes in src/test/arith_uint256_tests.cpp:483-510. */
  lemma CompactExamples()
    ensures C.Decode(0x01123456) == C.Decoded(0x12, false, false) && C.Decode(0x01fedcba) == C.Decoded(0x7e, true, false)
    ensures C.Decode(0x02123456) == C.Decoded(0x1234, false, false) && C.Decode(0x03123456) == C.Decoded(0x123456, false, false)
  {
    L.Pow32();
    CompactFields(0x01123456, 1, 0x123456, false);
    CompactSmall(0x01123456, 0x10000, 0x12);
    CompactFields(0x01fedcba, 1, 0x7edcba, true);
    CompactSmall(0x01fedcba, 0x10000, 0x7e);
    CompactFields(0x02123456, 2, 0x123456, false);
    CompactSmall(0x02123456, 0x100, 0x1234);
    CompactFields(0x03123456, 3, 0x123456, false);
    CompactSmall(0x03123456, 1, 0x123456);
  }

  /** Longer ones, lines 512-540. */
  lemma LongCompactExamples()
    ensures C.Decode(0x04123456) == C.Decoded(0x12345600, false, false) && C.Decode(0x04923456) == C.Decoded(0x12345600, true, false)
    ensures C.Decode(0x05009234) == C.Decoded(0x92340000, false, false) && C.Decode(0xff123456).overflow
  {
    L.Pow32();
    CompactFields(0x04123456, 4, 0x123456, false);
    CompactLarge(0x04123456, 0x100, 0x12345600);
    CompactFields(0x04923456, 4, 0x123456, true);
    CompactLarge(0x04923456, 0x100, 0x12345600);
    CompactFields(0x05009234, 5, 0x9234, false);
    CompactLarge(0x05009234, 0x10000, 0x92340000);
    CompactFields(0xff123456, 255, 0x123456, false);
    CompactHuge(0xff123456);
  }
}
