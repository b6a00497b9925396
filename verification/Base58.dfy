/**
 * Base58 and Base58Check of src/base58.cpp:36-156.  Strings and data are byte sequences; the digits of a buffer
 * are big-endian, as in the source.
 */
module Base58 {
  import opened Basics
  import opened Limbs
  import opened Radix

  const ONE: Byte := 49

  // ---------------------------------------------------------------- the alphabet

  /** Line 34, run by run: 1-9, A-H, J-N, P-Z, a-k, m-z. */
  function CharOf(d: nat): Byte
    requires d < 58
  {
    if d < 9 then 49 + (d - 0)
    else if d < 17 then 65 + (d - 9)
    else if d < 22 then 74 + (d - 17)
    else if d < 33 then 80 + (d - 22)
    else if d < 44 then 97 + (d - 33)
    else 109 + (d - 44)
  }

  function DigitOf(c: Byte): int {
    if 49 <= c <= 57 then c - 49 + 0
    else if 65 <= c <= 72 then c - 65 + 9
    else if 74 <= c <= 78 then c - 74 + 17
    else if 80 <= c <= 90 then c - 80 + 22
    else if 97 <= c <= 107 then c - 97 + 33
    else if 109 <= c <= 122 then c - 109 + 44
    else -1
  }

  lemma DigitChar(d: nat)
    requires d < 58
    ensures DigitOf(CharOf(d)) == d && !IsSpace(CharOf(d)) && CharOf(d) != 0 && (CharOf(d) == ONE <==> d == 0)
  {
  }

  lemma CharDigit(c: Byte)
    ensures DigitOf(c) != -1 ==> 0 <= DigitOf(c) < 58 && CharOf(DigitOf(c)) == c
    ensures DigitOf(c) == 0 <==> c == ONE
    ensures IsSpace(c) ==> DigitOf(c) == -1
  {
  }

  predicate IsSpace(c: Byte) { c == 32 || 9 <= c <= 13 }

  function Chars(s: seq<nat>): (r: Bytes)
    requires InBase(s, 58)
    ensures |r| == |s|
  {
    seq(|s|, i requires 0 <= i < |s| => CharOf(s[i]))
  }

  predicate Readable(s: Bytes) { forall i :: 0 <= i < |s| ==> DigitOf(s[i]) != -1 }

  function Numbers(s: Bytes): (r: seq<nat>)
    requires Readable(s)
    ensures |r| == |s| && InBase(r, 58)
  {
    assert forall i :: 0 <= i < |s| ==> 0 <= DigitOf(s[i]) < 58 by {
      forall i | 0 <= i < |s| ensures 0 <= DigitOf(s[i]) < 58 { CharDigit(s[i]); }
    }
    seq<nat>(|s|, i requires 0 <= i < |s| => DigitOf(s[i]))
  }

  lemma NumbersChars(s: seq<nat>)
    requires InBase(s, 58)
    ensures Readable(Chars(s)) && Numbers(Chars(s)) == s
    ensures forall i :: 0 <= i < |s| ==> !IsSpace(Chars(s)[i]) && Chars(s)[i] != 0
  {
    forall i | 0 <= i < |s|
      ensures var c := Chars(s)[i]; DigitOf(c) == s[i] && !IsSpace(c) && c != 0
    {
      DigitChar(s[i]);
    }
  }

  lemma CharsNumbers(s: Bytes)
    requires Readable(s)
    ensures Chars(Numbers(s)) == s
  {
    forall i | 0 <= i < |s| ensures Chars(Numbers(s))[i] == s[i] { CharDigit(s[i]); }
  }

  // ---------------------------------------------------------------- what is computed

  /** The length of the leading run of c. */
  function Run(s: Bytes, c: Byte): (n: nat)
    ensures n <= |s| && (forall i :: 0 <= i < n ==> s[i] == c) && (n < |s| ==> s[n] != c)
  {
    if s == [] || s[0] != c then 0 else 1 + Run(s[1..], c)
  }

  function Repeat(c: Byte, n: nat): (r: Bytes)
    ensures |r| == n && forall i :: 0 <= i < n ==> r[i] == c
  {
    seq(n, _ => c)
  }

  /** Zero bytes become ones, the rest its base-58 digits. */
  function Encode(v: Bytes): Bytes {
    var z := Run(v, 0);
    DigitsShape(Val(v[z..], 256), 58);
    Repeat(ONE, z) + Chars(Digits(Val(v[z..], 256), 58))
  }

  function TrimLeft(s: Bytes): (r: Bytes)
    ensures r != [] ==> !IsSpace(r[0])
  {
    if s == [] || !IsSpace(s[0]) then s else TrimLeft(s[1..])
  }

  function TrimRight(s: Bytes): (r: Bytes)
    ensures r <= s && (r != [] ==> !IsSpace(r[|r| - 1]))
    ensures forall i :: |r| <= i < |s| ==> IsSpace(s[i])
  {
    if s == [] || !IsSpace(s[|s| - 1]) then s else TrimRight(s[..|s| - 1])
  }

  /** A C string ends at its first NUL. */
  function CString(s: Bytes): (r: Bytes)
    ensures r <= s && forall i :: 0 <= i < |r| ==> r[i] != 0
  {
    if s == [] || s[0] == 0 then [] else [s[0]] + CString(s[1..])
  }

  function Trimmed(s: Bytes): Bytes { TrimRight(TrimLeft(CString(s))) }

  /** The bytes that the digits u stand for, after z zero bytes. */
  function Unfold(z: nat, u: seq<nat>): Bytes {
    DigitsShape(Val(u, 58), 256);
    Repeat(0, z) + Digits(Val(u, 58), 256)
  }

  /** A word in the alphabet, spaces around it ignored. */
  function Decode(s: Bytes): Option<Bytes> {
    var t := Trimmed(s);
    if Readable(t) then
      var z := Run(t, ONE);
      Some(Unfold(z, Numbers(t[z..])))
    else None
  }

  // ---------------------------------------------------------------- round trips

  lemma {:induction false} RunOf(c: Byte, z: nat, w: Bytes)
    requires w == [] || w[0] != c
    ensures Run(Repeat(c, z) + w, c) == z
  {
    if z == 0 {
      assert Repeat(c, 0) + w == w;
    } else {
      assert (Repeat(c, z) + w)[1..] == Repeat(c, z - 1) + w;
      RunOf(c, z - 1, w);
    }
  }

  lemma {:induction false} CStringSame(s: Bytes)
    requires forall i :: 0 <= i < |s| ==> s[i] != 0
    ensures CString(s) == s
  {
    if s != [] { CStringSame(s[1..]); }
  }

  lemma TrimmedSame(s: Bytes)
    requires forall i :: 0 <= i < |s| ==> !IsSpace(s[i]) && s[i] != 0
    ensures Trimmed(s) == s
  {
    CStringSame(s);
  }

  lemma OnesAndChars(z: nat, u: seq<nat>)
    requires InBase(u, 58) && Canonical(u)
    ensures var t := Repeat(ONE, z) + Chars(u);
            Trimmed(t) == t && Readable(t) && Run(t, ONE) == z && Numbers(t[z..]) == u
  {
    var t := Repeat(ONE, z) + Chars(u);
    NumbersChars(u);
    if u != [] { DigitChar(u[0]); }
    RunOf(ONE, z, Chars(u));
    TrimmedSame(t);
    assert t[z..] == Chars(u);
    forall i | 0 <= i < |t| ensures DigitOf(t[i]) != -1 { }
  }

  lemma DecodeOnes(z: nat, u: seq<nat>)
    requires InBase(u, 58) && Canonical(u)
    ensures Decode(Repeat(ONE, z) + Chars(u)) == Some(Unfold(z, u))
  {
    OnesAndChars(z, u);
  }

  lemma UnfoldDigits(v: Bytes)
    ensures var z := Run(v, 0);
            var u := Digits(Val(v[z..], 256), 58);
            InBase(u, 58) && Canonical(u) && Unfold(z, u) == v
  {
    var z := Run(v, 0);
    var n := Val(v[z..], 256);
    DigitsShape(n, 58);
    DigitsValue(n, 58);
    DigitsVal(v[z..], 256);
    assert Repeat(0, z) + v[z..] == v;
  }

  /** Every byte string comes back. */
  lemma DecodeEncode(v: Bytes)
    ensures Decode(Encode(v)) == Some(v)
  {
    UnfoldDigits(v);
    var z := Run(v, 0);
    DecodeOnes(z, Digits(Val(v[z..], 256), 58));
  }

  lemma EncodeUnfold(z: nat, u: seq<nat>)
    requires InBase(u, 58) && Canonical(u)
    ensures Encode(Unfold(z, u)) == Repeat(ONE, z) + Chars(u)
  {
    var n := Val(u, 58);
    DigitsShape(n, 256);
    DigitsValue(n, 256);
    RunOf(0, z, Digits(n, 256));
    assert Unfold(z, u)[z..] == Digits(n, 256);
    DigitsVal(u, 58);
  }

  /** Every accepted string comes back without the spaces around it. */
  lemma EncodeDecode(s: Bytes)
    requires Decode(s).Some?
    ensures Encode(Decode(s).value) == Trimmed(s)
  {
    var t := Trimmed(s);
    var z := Run(t, ONE);
    var u := Numbers(t[z..]);
    if u != [] { CharDigit(t[z]); }
    EncodeUnfold(z, u);
    CharsNumbers(t[z..]);
    assert Repeat(ONE, z) + t[z..] == t;
  }

  /** The encoding is one-to-one. */
  lemma EncodeInjective(v: Bytes, w: Bytes)
    requires Encode(v) == Encode(w)
    ensures v == w
  {
    DecodeEncode(v);
    DecodeEncode(w);
  }

  // ---------------------------------------------------------------- Base58Check

  /** Four check bytes of any data. */
  datatype Hash = Hash(check: Bytes -> Bytes) {
    ghost predicate Ok() { forall v :: |check(v)| == 4 }
  }

  function EncodeCheck(h: Hash, v: Bytes): Bytes { Encode(v + h.check(v)) }

  function DecodeCheck(h: Hash, s: Bytes): Option<Bytes> {
    var r := Decode(s);
    if r.None? || |r.value| < 4 then None
    else
      var n := |r.value| - 4;
      if h.check(r.value[..n]) == r.value[n..] then Some(r.value[..n]) else None
  }

  lemma CheckRoundTrip(h: Hash, v: Bytes)
    requires h.Ok()
    ensures DecodeCheck(h, EncodeCheck(h, v)) == Some(v)
  {
    var w := v + h.check(v);
    DecodeEncode(w);
    assert |h.check(v)| == 4 && w[..|w| - 4] == v && w[|w| - 4..] == h.check(v);
  }

  lemma CheckAccepts(h: Hash, s: Bytes)
    requires DecodeCheck(h, s).Some?
    ensures EncodeCheck(h, DecodeCheck(h, s).value) == Trimmed(s)
  {
    var w := Decode(s).value;
    assert w == w[..|w| - 4] + w[|w| - 4..];
    EncodeDecode(s);
  }

  // ---------------------------------------------------------------- buffers are large enough

  lemma EncodeBlock()
    ensures Pow(256, 8) <= Pow(58, 11)
  {
  }

  lemma EncodeRest(r: nat)
    requires r < 8
    ensures Pow(256, r) <= Pow(58, r * 138 / 100 + 1)
  {
    assert Pow(256, 0) == 1 && Pow(58, 1) == 58;
    assert Pow(256, 1) == 256 && Pow(58, 2) == 3364;
    assert Pow(256, 2) == 65536 && Pow(58, 3) == 195112;
    assert Pow(256, 3) == 16777216 && Pow(58, 5) == 656356768;
    assert Pow(256, 4) == 4294967296 && Pow(58, 6) == 38068692544;
    assert Pow(256, 5) == 1099511627776 && Pow(58, 7) == 2207984167552;
    assert Pow(256, 6) == 281474976710656 && Pow(58, 9) == 7427658739644928;
    assert Pow(256, 7) == 72057594037927936 && Pow(58, 10) == 430804206899405824;
  }

  /** n bytes fit in the 138/100 n + 1 digits allotted. */
  lemma EncodeFits(n: nat)
    ensures Pow(256, n) <= Pow(58, n * 138 / 100 + 1)
  {
    var q, r := n / 8, n % 8;
    EncodeBlock();
    Blocks(256, 8, 58, 11, q);
    EncodeRest(r);
    Combine(256, 8 * q, r, 58, 11 * q, r * 138 / 100 + 1);
    PowGrows(58, 11 * q + (r * 138 / 100 + 1), n * 138 / 100 + 1);
  }

  lemma FifteenDigits()
    ensures Pow(58, 11) == 24986644000165537792 && Pow(58, 15) == 282761256881297307761016832
  {
    assert Pow(58, 1) == 58 && Pow(58, 5) == 656356768;
    PowAdd(58, 5, 5);
    PowAdd(58, 10, 1);
    PowAdd(58, 10, 5);
  }

  lemma ElevenBytes()
    ensures Pow(256, 11) == 0x10000000000000000000000 && Pow(256, 13) == 0x100000000000000000000000000
  {
    assert Pow(256, 3) == 0x100_0000 && Pow(256, 4) == 0x1_0000_0000 && Pow(256, 2) == 0x1_0000;
    PowAdd(256, 4, 4);
    PowAdd(256, 8, 3);
    PowAdd(256, 11, 2);
  }

  lemma DecodeBlock()
    ensures Pow(58, 71) <= Pow(256, 52)
  {
    FifteenDigits();
    PowAdd(58, 15, 15);
    PowAdd(58, 30, 30);
    PowAdd(58, 60, 11);
    ElevenBytes();
    PowAdd(256, 13, 13);
    PowAdd(256, 26, 26);
  }

  /** Bytes for fewer than fifteen digits. */
  function Need(c: nat): nat
    requires c < 15
  {
    if c < 4 then c else if c < 8 then c - 1 else if c < 12 then c - 2 else c - 3
  }

  lemma DecodeFew(c: nat)
    requires c < 15
    ensures Pow(58, c) <= Pow(256, Need(c))
  {
    assert Pow(58, 0) == 1 && Pow(256, 0) == 1;
    assert Pow(58, 1) == 58 && Pow(256, 1) == 256;
    assert Pow(58, 2) == 3364 && Pow(256, 2) == 65536;
    assert Pow(58, 3) == 195112 && Pow(256, 3) == 16777216;
    assert Pow(58, 4) == 11316496 && Pow(256, 3) == 16777216;
    assert Pow(58, 5) == 656356768 && Pow(256, 4) == 4294967296;
    assert Pow(58, 6) == 38068692544 && Pow(256, 5) == 1099511627776;
    assert Pow(58, 7) == 2207984167552 && Pow(256, 6) == 281474976710656;
    assert Pow(58, 8) == 128063081718016 && Pow(256, 6) == 281474976710656;
    assert Pow(58, 9) == 7427658739644928 && Pow(256, 7) == 72057594037927936;
    assert Pow(58, 10) == 430804206899405824 && Pow(256, 8) == 18446744073709551616;
    assert Pow(58, 11) == 24986644000165537792 && Pow(256, 9) == 4722366482869645213696;
    assert Pow(58, 12) == 1449225352009601191936 && Pow(256, 9) == 4722366482869645213696;
    assert Pow(58, 13) == 84055070416556869132288 && Pow(256, 10) == 1208925819614629174706176;
    assert Pow(58, 14) == 4875194084160298409672704 && Pow(256, 11) == 309485009821345068724781056;
  }

  lemma DecodeRest(r: nat)
    requires r < 71
    ensures Pow(58, r) <= Pow(256, r * 733 / 1000 + 1)
  {
    var a, c := r / 15, r % 15;
    FifteenDigits();
    ElevenBytes();
    Blocks(58, 15, 256, 11, a);
    DecodeFew(c);
    Combine(58, 15 * a, c, 256, 11 * a, Need(c));
    Enough(a, c);
    PowGrows(256, 11 * a + Need(c), r * 733 / 1000 + 1);
  }

  lemma Enough(a: nat, c: nat)
    requires a < 5 && c < 15 && 15 * a + c < 71
    ensures 11 * a + Need(c) <= (15 * a + c) * 733 / 1000 + 1
  {
  }

  lemma DecodeLength(q: nat, r: nat)
    ensures 52 * q + r * 733 / 1000 <= (71 * q + r) * 733 / 1000
  {
  }

  /** n digits fit in the 733/1000 n + 1 bytes allotted. */
  lemma DecodeFits(n: nat)
    ensures Pow(58, n) <= Pow(256, n * 733 / 1000 + 1)
  {
    var q, r := n / 71, n % 71;
    DecodeBlock();
    Blocks(58, 71, 256, 52, q);
    DecodeRest(r);
    DecodeJoin(q, r);
  }

  lemma DecodeJoin(q: nat, r: nat)
    requires Pow(58, 71 * q) <= Pow(256, 52 * q) && Pow(58, r) <= Pow(256, r * 733 / 1000 + 1)
    ensures Pow(58, 71 * q + r) <= Pow(256, (71 * q + r) * 733 / 1000 + 1)
  {
    Combine(58, 71 * q, r, 256, 52 * q, r * 733 / 1000 + 1);
    DecodeLength(q, r);
    PowGrows(256, 52 * q + (r * 733 / 1000 + 1), (71 * q + r) * 733 / 1000 + 1);
  }

  // ---------------------------------------------------------------- the loops

  /** Lines 56-61 and 94-100: multiply the number in the buffer by m and add c, from the last digit to the first. */
  method MulAdd(a: array<Byte>, b: nat, m: nat, c: nat) returns (carry: nat)
    requires 1 < b <= 256 && InBase(a[..], b)
    modifies a
    ensures InBase(a[..], b) && Val(a[..], b) + carry * Pow(b, a.Length) == Val(old(a[..]), b) * m + c
  {
    ghost var x := a[..];
    carry := c;
    var i := a.Length;
    while i > 0
      invariant 0 <= i <= a.Length && InBase(a[..], b)
      invariant forall k :: 0 <= k < i ==> a[k] == x[k]
      invariant Val(a[i..], b) + carry * Pow(b, a.Length - i) == Val(x[i..], b) * m + c
    {
      i := i - 1;
      ghost var tail := a[i + 1..];
      var n := carry + m * a[i];
      DivMod(n, b);
      a[i] := n % b;
      assert a[i..][1..] == tail && x[i..][1..] == x[i + 1..];
      CarryStep(x[i..], a[i..], b, m, c, carry, n);
      carry := n / b;
    }
    assert a[0..] == a[..] && x[0..] == x;
  }

  /** Apply the carry loop where the result is known to fit: the source's assertion. */
  method Push(a: array<Byte>, b: nat, m: nat, c: nat)
    requires 1 < b <= 256 && InBase(a[..], b) && Val(a[..], b) * m + c < Pow(b, a.Length)
    modifies a
    ensures InBase(a[..], b) && Val(a[..], b) == Val(old(a[..]), b) * m + c
  {
    ghost var t := Val(a[..], b) * m + c;
    var carry := MulAdd(a, b, m, c);
    NoCarry(Val(a[..], b), carry, Pow(b, a.Length), t);
    assert carry == 0;
  }

  /** Lines 71-73 and 105-107: what remains after leading zeros are the digits of the value. */
  method SkipZeros(a: array<Byte>, b: nat) returns (it: nat)
    requires 1 < b <= 256 && InBase(a[..], b)
    ensures it <= a.Length && a[it..] == Digits(Val(a[..], b), b)
  {
    it := 0;
    while it < a.Length && a[it] == 0
      invariant it <= a.Length && forall k :: 0 <= k < it ==> a[k] == 0
    {
      it := it + 1;
    }
    ValZeros(a[..], it, b);
    assert a[..][it..] == a[it..];
    DigitsVal(a[it..], b);
  }

  /** A prefix of the number fits wherever the whole length fits. */
  lemma PrefixFits(s: seq<nat>, k: nat, b: nat, w: nat)
    requires b > 0 && InBase(s, b) && k <= |s| && Pow(b, |s|) <= w
    ensures Val(s[..k], b) < w
  {
    ValBound(s[..k], b);
    PowGrows(b, k, |s|);
  }

  /** Lines 91-103: the bytes of v, all of them pushed into a base-58 buffer. */
  method FillBase58(v: Bytes) returns (b58: array<Byte>)
    ensures fresh(b58) && InBase(b58[..], 58) && Val(b58[..], 58) == Val(v, 256)
  {
    b58 := new Byte[|v| * 138 / 100 + 1](_ => 0);
    ValAllZero(b58[..], 58);
    EncodeFits(|v|);
    for k := 0 to |v|
      invariant InBase(b58[..], 58) && Val(b58[..], 58) == Val(v[..k], 256)
    {
      assert v[..k + 1][..k] == v[..k];
      PrefixFits(v, k + 1, 256, Pow(58, b58.Length));
      Push(b58, 58, 256, v[k]);
    }
    assert v[..|v|] == v;
  }

  /** Lines 109-113. */
  method WriteChars(zeroes: nat, digits: seq<nat>) returns (str: Bytes)
    requires InBase(digits, 58)
    ensures str == Repeat(ONE, zeroes) + Chars(digits)
  {
    str := Repeat(ONE, zeroes);
    for k := 0 to |digits|
      invariant str == Repeat(ONE, zeroes) + Chars(digits[..k])
    {
      str := str + [CharOf(digits[k])];
      assert Chars(digits[..k + 1]) == Chars(digits[..k]) + [CharOf(digits[k])];
    }
    assert digits[..|digits|] == digits;
  }

  /** Lines 82-115. */
  method EncodeBase58(v: Bytes) returns (str: Bytes)
    ensures str == Encode(v)
  {
    var zeroes := 0;
    while zeroes < |v| && v[zeroes] == 0
      invariant zeroes <= |v| && forall i :: 0 <= i < zeroes ==> v[i] == 0
    {
      zeroes := zeroes + 1;
    }
    RunIs(v, 0, zeroes);
    var b58 := FillBase58(v[zeroes..]);
    var it := SkipZeros(b58, 58);
    str := WriteChars(zeroes, b58[it..]);
  }

  lemma {:induction false} RunIs(s: Bytes, c: Byte, n: nat)
    requires n <= |s| && (forall i :: 0 <= i < n ==> s[i] == c) && (n < |s| ==> s[n] != c)
    ensures Run(s, c) == n
  {
    if n > 0 { RunIs(s[1..], c, n - 1); }
  }

  // ---------------------------------------------------------------- reading

  /** The characters up to the first space. */
  function Word(s: Bytes): (r: Bytes)
    ensures r <= s && (forall i :: 0 <= i < |r| ==> !IsSpace(r[i])) && (|r| < |s| ==> IsSpace(s[|r|]))
  {
    if s == [] || IsSpace(s[0]) then [] else [s[0]] + Word(s[1..])
  }

  /** Lines 50-64: read digits into a base-256 buffer until a space or a character outside the alphabet. */
  method FillBase256(s: Bytes) returns (ok: bool, k: nat, b256: array<Byte>)
    ensures ok <==> Readable(Word(s))
    ensures ok ==> k == |Word(s)|
    ensures fresh(b256) && InBase(b256[..], 256)
    ensures ok ==> Val(b256[..], 256) == Val(Numbers(Word(s)), 58)
  {
    b256 := new Byte[|s| * 733 / 1000 + 1](_ => 0);
    ValAllZero(b256[..], 256);
    DecodeFits(|s|);
    ghost var w := Word(s);
    ok, k := true, 0;
    while k < |s| && !IsSpace(s[k])
      invariant k <= |w| && Readable(w[..k])
      invariant InBase(b256[..], 256) && Val(b256[..], 256) == Val(Numbers(w[..k]), 58)
    {
      var ch := DigitOf(s[k]);
      if ch == -1 {
        BadDigit(s, k);
        return false, k, b256;
      }
      CharDigit(s[k]);
      ReadOne(w, k);
      WordFits(s, k + 1, Pow(256, b256.Length));
      Push(b256, 256, 58, ch);
      k := k + 1;
    }
    assert w[..k] == w;
  }

  lemma BadDigit(s: Bytes, k: nat)
    requires k < |Word(s)| && DigitOf(s[k]) == -1
    ensures !Readable(Word(s))
  {
    assert Word(s)[k] == s[k];
  }

  lemma ReadOne(w: Bytes, k: nat)
    requires k < |w| && Readable(w[..k]) && DigitOf(w[k]) != -1
    ensures Readable(w[..k + 1]) && Val(Numbers(w[..k + 1]), 58) == Val(Numbers(w[..k]), 58) * 58 + DigitOf(w[k])
  {
    CharDigit(w[k]);
    var u := w[..k + 1];
    forall i | 0 <= i < |u| ensures DigitOf(u[i]) != -1 { if i < k { assert w[..k][i] == w[i]; } }
    assert Numbers(w[..k + 1]) == Numbers(w[..k]) + [DigitOf(w[k])];
    ValSnoc(Numbers(w[..k]), DigitOf(w[k]), 58);
  }

  lemma WordFits(s: Bytes, k: nat, w: nat)
    requires k <= |Word(s)| && Readable(Word(s)[..k]) && Pow(58, |s|) <= w
    ensures Val(Numbers(Word(s)[..k]), 58) < w
  {
    ValBound(Numbers(Word(s)[..k]), 58);
    PowGrows(58, k, |s|);
  }

  lemma TrimRightIs(u: Bytes, n: nat)
    requires n <= |u| && (forall i :: n <= i < |u| ==> IsSpace(u[i])) && (n > 0 ==> !IsSpace(u[n - 1]))
    ensures TrimRight(u) == u[..n]
  {
    var r := TrimRight(u);
    assert r == u[..|r|];
  }

  predicate AllSpaces(s: Bytes) { forall i :: 0 <= i < |s| ==> IsSpace(s[i]) }

  /** u from z on starts with the word w, and then ends or goes on with a space. */
  predicate WordAt(u: Bytes, z: nat, w: Bytes) {
    && z + |w| <= |u| && u[z..z + |w|] == w
    && (forall i :: 0 <= i < |w| ==> !IsSpace(w[i]))
    && (z + |w| < |u| ==> IsSpace(u[z + |w|]))
  }

  lemma WordIsAt(u: Bytes, z: nat)
    requires z <= |u|
    ensures WordAt(u, z, Word(u[z..]))
  {
    var w := Word(u[z..]);
    assert u[z..][..|w|] == u[z..z + |w|];
  }

  lemma WordReads(t: Bytes, z: nat, w: Bytes)
    requires z <= |t| && t[z..] == w && Readable(w) && (w != [] ==> w[0] != ONE) && forall i :: 0 <= i < z ==> t[i] == ONE
    ensures Readable(t) && Run(t, ONE) == z
  {
    forall i | 0 <= i < |t| ensures DigitOf(t[i]) != -1 { if i >= z { assert t[i] == w[i - z]; } }
    if z < |t| { assert t[z] == w[0]; }
    RunIs(t, ONE, z);
  }

  /** A word in the alphabet followed by nothing but spaces is what trimming leaves. */
  lemma WordAccepted(s: Bytes, u: Bytes, z: nat, w: Bytes)
    requires u == TrimLeft(CString(s)) && z == Run(u, ONE) && WordAt(u, z, w)
    requires Readable(w) && AllSpaces(u[z + |w|..])
    ensures Decode(s) == Some(Unfold(z, Numbers(w)))
  {
    var n := z + |w|;
    forall i | n <= i < |u| ensures IsSpace(u[i]) { assert u[i] == u[n..][i - n]; }
    if |w| > 0 { assert u[n - 1] == w[|w| - 1] && u[z] == w[0]; }
    TrimRightIs(u, n);
    assert u[..n][z..] == w;
    WordReads(u[..n], z, w);
  }

  /** Anything else keeps an unreadable character through trimming. */
  lemma WordRejected(s: Bytes, u: Bytes, z: nat, w: Bytes)
    requires u == TrimLeft(CString(s)) && WordAt(u, z, w)
    requires !(Readable(w) && AllSpaces(u[z + |w|..]))
    ensures Decode(s) == None
  {
    var n := z + |w|;
    if !Readable(w) {
      var j :| 0 <= j < |w| && DigitOf(w[j]) == -1;
      assert u[z + j] == w[j];
      KeptUnreadable(u, z + j, z + j);
    } else {
      var rest := u[n..];
      var j :| 0 <= j < |rest| && !IsSpace(rest[j]);
      CharDigit(u[n]);
      KeptUnreadable(u, n, n + j);
    }
  }

  lemma KeptUnreadable(u: Bytes, i: nat, j: nat)
    requires i <= j < |u| && DigitOf(u[i]) == -1 && !IsSpace(u[j])
    ensures !Readable(TrimRight(u))
  {
    var t := TrimRight(u);
    assert j < |t| && t[i] == u[i];
  }

  /** Lines 39-40: skip leading spaces. */
  method SkipSpaces(t: Bytes) returns (u: Bytes)
    ensures u == TrimLeft(t)
  {
    u := t;
    while u != [] && IsSpace(u[0])
      invariant TrimLeft(u) == TrimLeft(t)
      decreases |u|
    {
      u := u[1..];
    }
  }

  /** Lines 42-46. */
  method CountOnes(u: Bytes) returns (zeroes: nat)
    ensures zeroes == Run(u, ONE)
  {
    zeroes := 0;
    while zeroes < |u| && u[zeroes] == ONE
      invariant zeroes <= |u| && forall i :: 0 <= i < zeroes ==> u[i] == ONE
    {
      zeroes := zeroes + 1;
    }
    RunIs(u, ONE, zeroes);
  }

  /** Lines 65-69: only spaces may follow. */
  method OnlySpaces(rest: Bytes) returns (ok: bool)
    ensures ok <==> AllSpaces(rest)
  {
    var k := 0;
    while k < |rest| && IsSpace(rest[k])
      invariant k <= |rest| && forall i :: 0 <= i < k ==> IsSpace(rest[i])
    {
      k := k + 1;
    }
    ok := k == |rest|;
  }

  /** Lines 47-78, after the zeroes ones. */
  method ReadWord(zeroes: nat, v: Bytes) returns (r: Option<Bytes>)
    ensures r == if Readable(Word(v)) && AllSpaces(v[|Word(v)|..]) then Some(Unfold(zeroes, Numbers(Word(v)))) else None
  {
    var ok, k, b256 := FillBase256(v);
    if !ok { return None; }
    ok := OnlySpaces(v[k..]);
    if !ok { return None; }
    var it := SkipZeros(b256, 256);
    r := Some(Repeat(0, zeroes) + b256[it..]);
  }

  /** Lines 36-80. */
  method DecodeBase58(s: Bytes) returns (r: Option<Bytes>)
    ensures r == Decode(s)
  {
    var u := SkipSpaces(CString(s));
    var zeroes := CountOnes(u);
    r := ReadWord(zeroes, u[zeroes..]);
    WordDecides(s, u, zeroes);
  }

  lemma WordDecides(s: Bytes, u: Bytes, z: nat)
    requires u == TrimLeft(CString(s)) && z == Run(u, ONE)
    ensures var v := u[z..];
            var w := Word(v);
            Decode(s) == if Readable(w) && AllSpaces(v[|w|..]) then Some(Unfold(z, Numbers(w))) else None
  {
    var v := u[z..];
    var w := Word(v);
    WordIsAt(u, z);
    assert v[|w|..] == u[z + |w|..];
    if Readable(w) && AllSpaces(v[|w|..]) {
      WordAccepted(s, u, z, w);
    } else {
      WordRejected(s, u, z, w);
    }
  }
}
