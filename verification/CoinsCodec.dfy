/** The byte format of `CCoins`: src/coins.h:180-240 and CCoins::CalcMaskSize of src/coins.cpp:39-55. */
module CoinsCodec {
  import opened Basics
  import opened TxCoins
  import opened VarInt
  import opened Compressor
  import L = Limbs

  // ---------------------------------------------------------------- the mask of unspent outputs

  function Flag(c: Coins, i: nat): nat { if c.IsAvailable(i) then 1 else 0 }

  /** The availability of outputs i to i + n - 1, as a number with the first in the lowest bit. */
  function Packed(c: Coins, i: nat, n: nat): (m: nat)
    ensures m < L.Pow2(n)
    decreases n
  {
    if n == 0 then 0 else Flag(c, i) + 2 * Packed(c, i + 1, n - 1)
  }

  /** The mask byte for outputs 2 + 8 b to 9 + 8 b. */
  function MaskByte(c: Coins, b: nat): Byte {
    L.Pow32();
    Packed(c, 2 + b * 8, 8)
  }

  function Mask(c: Coins, n: nat): (m: Bytes)
    ensures |m| == n
  {
    seq(n, b requires 0 <= b < n => MaskByte(c, b))
  }

  predicate BitAt(m: nat, p: nat) {
    if p == 0 then m % 2 == 1 else BitAt(m / 2, p - 1)
  }

  /** Each bit of the mask says whether its output is there. */
  lemma {:induction false} PackedBit(c: Coins, i: nat, n: nat, p: nat)
    requires p < n
    ensures BitAt(Packed(c, i, n), p) <==> c.IsAvailable(i + p)
    decreases n
  {
    if p > 0 { PackedBit(c, i + 1, n - 1, p - 1); }
  }

  lemma {:induction false} PackedZero(c: Coins, i: nat, n: nat)
    ensures Packed(c, i, n) == 0 <==> forall k :: i <= k < i + n ==> !c.IsAvailable(k)
    decreases n
  {
    if n > 0 { PackedZero(c, i + 1, n - 1); }
  }

  lemma ByteZero(c: Coins, b: nat)
    ensures MaskByte(c, b) == 0 <==> forall k :: 2 + b * 8 <= k < 10 + b * 8 ==> !c.IsAvailable(k)
  {
    PackedZero(c, 2 + b * 8, 8);
  }

  // ---------------------------------------------------------------- how long the mask is

  function Nonzero(m: Bytes): nat {
    if m == [] then 0 else Nonzero(m[..|m| - 1]) + if m[|m| - 1] != 0 then 1 else 0
  }

  /** Mask bytes that the outputs reach into. */
  function Reach(c: Coins): (n: nat)
    ensures 2 + 8 * n < |c.vout| + 8 && |c.vout| <= 2 + 8 * n
  {
    if |c.vout| <= 2 then 0 else (|c.vout| - 2 + 7) / 8
  }

  /** The position after the last non-zero byte. */
  function LastUsed(m: Bytes): (n: nat)
    ensures n <= |m|
  {
    if m == [] then 0 else if m[|m| - 1] != 0 then |m| else LastUsed(m[..|m| - 1])
  }

  lemma {:induction false} LastUsedIs(m: Bytes)
    ensures LastUsed(m) > 0 ==> m[LastUsed(m) - 1] != 0
    ensures forall i :: LastUsed(m) <= i < |m| ==> m[i] == 0
  {
    if m != [] && m[|m| - 1] == 0 { LastUsedIs(m[..|m| - 1]); }
  }

  function MaskSize(c: Coins): nat { LastUsed(Mask(c, Reach(c))) }

  function MaskCode(c: Coins): nat { Nonzero(Mask(c, Reach(c))) }

  lemma {:induction false} NonzeroPrefix(m: Bytes, n: nat)
    requires n <= |m| && forall i :: n <= i < |m| ==> m[i] == 0
    ensures Nonzero(m) == Nonzero(m[..n])
    decreases |m|
  {
    if n == |m| {
      assert m[..n] == m;
    } else {
      NonzeroPrefix(m[..|m| - 1], n);
      assert m[..|m| - 1][..n] == m[..n];
    }
  }

  /** The bytes written: none of the non-zero ones is missing, and the last is one of them. */
  lemma MaskWritten(c: Coins)
    ensures var m := Mask(c, MaskSize(c)); Nonzero(m) == MaskCode(c) && (m != [] ==> m[|m| - 1] != 0)
    ensures forall i: nat :: c.IsAvailable(i) ==> i < 2 + 8 * MaskSize(c)
  {
    var all, n := Mask(c, Reach(c)), MaskSize(c);
    LastUsedIs(all);
    NonzeroPrefix(all, n);
    assert all[..n] == Mask(c, n);
    forall i: nat | c.IsAvailable(i) ensures i < 2 + 8 * n { MaskReaches(c, i); }
  }

  lemma MaskReaches(c: Coins, i: nat)
    requires c.IsAvailable(i)
    ensures i < 2 + 8 * MaskSize(c)
  {
    if i >= 2 {
      var all, b := Mask(c, Reach(c)), (i - 2) / 8;
      LastUsedIs(all);
      ByteZero(c, b);
      assert all[b] == MaskByte(c, b);
    }
  }

  /** Lines 43-48 of src/coins.cpp. */
  method AllSpent(c: Coins, b: nat) returns (fZero: bool)
    ensures fZero <==> MaskByte(c, b) == 0
  {
    fZero := true;
    ghost var start := 2 + b * 8;
    for i := 0 to 8
      invariant fZero <==> forall k :: start <= k < start + i ==> !c.IsAvailable(k)
    {
      var k := 2 + b * 8 + i;
      if k < |c.vout| && !c.vout[k].IsNull() {
        assert c.IsAvailable(k);
        fZero := false;
      }
    }
    ByteZero(c, b);
  }

  lemma OneByteMore(c: Coins, b: nat)
    ensures Nonzero(Mask(c, b + 1)) == Nonzero(Mask(c, b)) + if MaskByte(c, b) != 0 then 1 else 0
    ensures LastUsed(Mask(c, b + 1)) == if MaskByte(c, b) != 0 then b + 1 else LastUsed(Mask(c, b))
  {
    assert Mask(c, b + 1)[..b] == Mask(c, b);
  }

  /** Lines 42-53 of src/coins.cpp. */
  method CountByte(c: Coins, b: nat, nBytes: nat, nNonzeroBytes: nat, ghost m: Bytes)
    returns (nBytes': nat, nNonzeroBytes': nat, ghost m': Bytes)
    requires m == Mask(c, b) && nBytes == LastUsed(m) && nNonzeroBytes == Nonzero(m)
    ensures m' == Mask(c, b + 1) && nBytes' == LastUsed(m') && nNonzeroBytes' == Nonzero(m')
  {
    OneByteMore(c, b);
    var fZero := AllSpent(c, b);
    nBytes', nNonzeroBytes', m' := nBytes, nNonzeroBytes, Mask(c, b + 1);
    if !fZero {
      nBytes' := b + 1;
      nNonzeroBytes' := nNonzeroBytes + 1;
    }
  }

  /** Lines 39-55 of src/coins.cpp. */
  method CalcMaskSize(c: Coins) returns (nBytes: nat, nNonzeroBytes: nat)
    ensures nBytes == MaskSize(c) && nNonzeroBytes == MaskCode(c)
  {
    nBytes, nNonzeroBytes := 0, 0;
    var b := 0;
    ghost var m := Mask(c, 0);
    while 2 + b * 8 < |c.vout|
      invariant b <= Reach(c) && m == Mask(c, b) && nBytes == LastUsed(m) && nNonzeroBytes == Nonzero(m)
      decreases |c.vout| - b
    {
      nBytes, nNonzeroBytes, m := CountByte(c, b, nBytes, nNonzeroBytes, m);
      b := b + 1;
    }
    assert b == Reach(c);
  }

  // ---------------------------------------------------------------- reading the mask back

  function Bits(m: nat, n: nat): (r: seq<bool>)
    ensures |r| == n
  {
    seq(n, p requires 0 <= p < n => BitAt(m, p))
  }

  function AllBits(m: Bytes): (r: seq<bool>)
    ensures |r| == 8 * |m|
  {
    if m == [] then [] else AllBits(m[..|m| - 1]) + Bits(m[|m| - 1], 8)
  }

  /** Lines 219-230: bytes are read until `code` non-zero ones have been seen. */
  function ReadMask(s: Bytes, code: nat): Option<(Bytes, Bytes)> {
    if code == 0 then Some(([], s))
    else if s == [] then None
    else
      var r := ReadMask(s[1..], if s[0] != 0 then code - 1 else code);
      if r.None? then None else Some(([s[0]] + r.value.0, r.value.1))
  }

  /** Counting non-zero bytes stops the reader exactly behind the mask. */
  lemma {:induction false} ReadMaskBack(m: Bytes, t: Bytes)
    requires m != [] ==> m[|m| - 1] != 0
    ensures ReadMask(m + t, Nonzero(m)) == Some((m, t))
    decreases |m|
  {
    if m == [] {
      assert m + t == t;
    } else {
      assert (m + t)[1..] == m[1..] + t;
      NonzeroFront(m);
      NonzeroLast(m);
      if |m| > 1 { assert m[1..][|m[1..]| - 1] == m[|m| - 1]; }
      ReadMaskBack(m[1..], t);
      assert m == [m[0]] + m[1..];
    }
  }

  lemma {:induction false} NonzeroFront(m: Bytes)
    requires m != []
    ensures Nonzero(m) == Nonzero(m[1..]) + if m[0] != 0 then 1 else 0
  {
    if |m| > 1 {
      NonzeroFront(m[..|m| - 1]);
      assert m[..|m| - 1][1..] == m[1..][..|m| - 2];
    }
  }

  lemma NonzeroLast(m: Bytes)
    requires m != [] && m[|m| - 1] != 0
    ensures Nonzero(m) > 0
  {
  }

  lemma {:induction false} AllBitsAt(m: Bytes, b: nat, p: nat)
    requires b < |m| && p < 8
    ensures AllBits(m)[8 * b + p] == BitAt(m[b], p)
  {
    var n := |m| - 1;
    if b < n {
      AllBitsAt(m[..n], b, p);
      assert AllBits(m)[8 * b + p] == AllBits(m[..n])[8 * b + p];
    } else {
      assert AllBits(m)[8 * b + p] == Bits(m[n], 8)[p];
    }
  }

  /** Availabilities as the reader sees them: the two flags of the header code, then the mask. */
  function Avail(code: nat, m: Bytes): (r: seq<bool>)
    ensures |r| == 2 + 8 * |m|
  {
    [code / 2 % 2 == 1, code / 4 % 2 == 1] + AllBits(m)
  }

  // ---------------------------------------------------------------- the header code

  function First(c: Coins): nat { Flag(c, 0) }
  function Second(c: Coins): nat { Flag(c, 1) }

  /** Line 186: a non-zero mask code is stored one less when both first outputs are spent. */
  function HeaderCode(c: Coins): nat
    requires !c.IsPruned()
  {
    SomethingLeft(c);
    8 * (MaskCode(c) - (if First(c) + Second(c) > 0 then 0 else 1)) + (if c.fCoinBase then 1 else 0)
    + 2 * First(c) + 4 * Second(c)
  }

  /** The assertion of line 186. */
  lemma SomethingLeft(c: Coins)
    requires !c.IsPruned()
    ensures First(c) + Second(c) > 0 || MaskCode(c) > 0
  {
    var o :| o in c.vout && !o.IsNull();
    var i :| 0 <= i < |c.vout| && c.vout[i] == o;
    assert c.IsAvailable(i);
    MaskWritten(c);
    if i >= 2 {
      var m := Mask(c, MaskSize(c));
      NonzeroLast(m);
    }
  }

  function MaskCodeOf(code: nat): nat { code / 8 + if code / 2 % 4 != 0 then 0 else 1 }

  lemma HeaderCodeReads(c: Coins)
    requires !c.IsPruned()
    ensures var code := HeaderCode(c);
            && (code % 2 == 1 <==> c.fCoinBase)
            && (code / 2 % 2 == 1 <==> c.IsAvailable(0)) && (code / 4 % 2 == 1 <==> c.IsAvailable(1))
            && MaskCodeOf(code) == MaskCode(c)
  {
    SomethingLeft(c);
    var k := MaskCode(c) - (if First(c) + Second(c) > 0 then 0 else 1);
    CodeFields(HeaderCode(c), k, if c.fCoinBase then 1 else 0, First(c), Second(c));
  }

  lemma CodeFields(code: nat, k: nat, base: nat, f: nat, s: nat)
    requires base < 2 && f < 2 && s < 2 && code == 8 * k + base + 2 * f + 4 * s
    ensures code % 2 == base && code / 2 % 2 == f && code / 4 % 2 == s && MaskCodeOf(code) == k + if f + s > 0 then 0 else 1
  {
    var h := 4 * k + f + 2 * s;
    Halved(code, h, base);
    Halved(h, 2 * k + s, f);
    Halved(2 * k + s, k, s);
    assert h % 4 == f + 2 * s;
  }

  lemma Halved(x: nat, h: nat, b: nat)
    requires b < 2 && x == 2 * h + b
    ensures x / 2 == h && x % 2 == b && x / 4 == h / 2 && x / 8 == h / 4
  {
  }

  /** Header and mask together say of every output whether it is there. */
  lemma AvailExact(c: Coins)
    requires !c.IsPruned()
    ensures var a := Avail(HeaderCode(c), Mask(c, MaskSize(c)));
            Tells(c, 0, a)
  {
    var m := Mask(c, MaskSize(c));
    var code := HeaderCode(c);
    HeaderCodeReads(c);
    MaskWritten(c);
    forall i | 0 <= i < 2 + 8 * |m| ensures Avail(code, m)[i] == c.IsAvailable(0 + i) {
      if i >= 2 { MaskAvail(c, |m|, i - 2); }
    }
  }

  lemma MaskAvail(c: Coins, n: nat, j: nat)
    requires j < 8 * n
    ensures AllBits(Mask(c, n))[j] == c.IsAvailable(2 + j)
  {
    var b, p := j / 8, j % 8;
    AllBitsAt(Mask(c, n), b, p);
    PackedBit(c, 2 + b * 8, 8, p);
    assert j == 8 * b + p;
  }

  // ---------------------------------------------------------------- the outputs

  /** Lines 200-203: the unspent outputs from position `from` on. */
  function WriteOuts(k: OutCodec, c: Coins, from: nat): Bytes
    requires AllTaken(k, c)
    decreases |c.vout| - from
  {
    if from >= |c.vout| then []
    else (if c.vout[from].IsNull() then [] else k.write(c.vout[from])) + WriteOuts(k, c, from + 1)
  }

  /** Lines 231-236. */
  function ReadOuts(k: OutCodec, s: Bytes, avail: seq<bool>): Option<(seq<TxOut>, Bytes)>
    decreases |avail|
  {
    if avail == [] then Some(([], s))
    else
      var o := if avail[0] then k.read(s) else Some((NULL_OUT, s));
      if o.None? then None
      else
        var r := ReadOuts(k, o.value.1, avail[1..]);
        if r.None? then None else Some(([o.value.0] + r.value.0, r.value.1))
  }

  /** Every unspent output can be written. */
  predicate AllTaken(k: OutCodec, c: Coins) { forall i :: 0 <= i < |c.vout| && !c.vout[i].IsNull() ==> k.takes(c.vout[i]) }

  /** What comes back at position i: of a spent output only that it is spent. */
  function OutAt(k: OutCodec, c: Coins, i: nat): TxOut { if c.IsAvailable(i) then k.back(c.vout[i]) else NULL_OUT }

  function OutsFrom(k: OutCodec, c: Coins, from: nat, n: nat): (r: seq<TxOut>)
    requires from <= n
    ensures |r| == n - from
  {
    seq(n - from, i requires 0 <= i < n - from => OutAt(k, c, from + i))
  }

  /** `avail` tells of every output from `from` on whether it is there. */
  ghost predicate Tells(c: Coins, from: nat, avail: seq<bool>) {
    && (forall i :: 0 <= i < |avail| ==> avail[i] == c.IsAvailable(from + i))
    && (forall i: nat :: c.IsAvailable(i) ==> i < from + |avail|)
  }

  lemma TellsRest(c: Coins, from: nat, avail: seq<bool>)
    requires Tells(c, from, avail) && avail != []
    ensures avail[0] == c.IsAvailable(from) && Tells(c, from + 1, avail[1..])
  {
    assert avail[0] == c.IsAvailable(from + 0);
    forall i | 0 <= i < |avail| - 1 ensures avail[1..][i] == c.IsAvailable(from + 1 + i) {
      assert avail[i + 1] == c.IsAvailable(from + (i + 1));
    }
  }

  lemma {:induction false} OutsBack(k: OutCodec, c: Coins, from: nat, avail: seq<bool>, t: Bytes)
    requires k.Ok() && AllTaken(k, c) && Tells(c, from, avail)
    ensures ReadOuts(k, WriteOuts(k, c, from) + t, avail) == Some((OutsFrom(k, c, from, from + |avail|), t))
    decreases |avail|
  {
    if avail == [] {
      NothingFrom(k, c, from);
      assert [] + t == t;
    } else {
      TellsRest(c, from, avail);
      OutsBack(k, c, from + 1, avail[1..], t);
      OutsStep(k, c, from, t);
      if avail[0] { OneOut(k, c, from, WriteOuts(k, c, from + 1) + t); }
      OutsFromStep(k, c, from, from + |avail|);
    }
  }

  lemma OutsFromStep(k: OutCodec, c: Coins, from: nat, n: nat)
    requires from < n
    ensures OutsFrom(k, c, from, n) == [OutAt(k, c, from)] + OutsFrom(k, c, from + 1, n)
  {
  }

  lemma OneOut(k: OutCodec, c: Coins, i: nat, t: Bytes)
    requires k.Ok() && AllTaken(k, c) && c.IsAvailable(i)
    ensures k.read(k.write(c.vout[i]) + t) == Some((k.back(c.vout[i]), t))
  {
  }

  lemma OutsStep(k: OutCodec, c: Coins, from: nat, t: Bytes)
    requires AllTaken(k, c)
    ensures WriteOuts(k, c, from) + t
         == if c.IsAvailable(from) then k.write(c.vout[from]) + (WriteOuts(k, c, from + 1) + t)
            else WriteOuts(k, c, from + 1) + t
  {
    if c.IsAvailable(from) {
      assert WriteOuts(k, c, from) == k.write(c.vout[from]) + WriteOuts(k, c, from + 1);
    } else {
      assert [] + WriteOuts(k, c, from + 1) == WriteOuts(k, c, from + 1);
    }
  }

  lemma {:induction false} NothingFrom(k: OutCodec, c: Coins, from: nat)
    requires AllTaken(k, c) && forall i: nat :: c.IsAvailable(i) ==> i < from
    ensures WriteOuts(k, c, from) == []
    decreases |c.vout| - from
  {
    if from < |c.vout| {
      assert !c.IsAvailable(from);
      NothingFrom(k, c, from + 1);
    }
  }

  // ---------------------------------------------------------------- whole records

  /** The types of the source: two `int`s, and no more outputs than the header code of 32 bits can count. */
  predicate Sized(c: Coins) { IsInt(c.nVersion) && IsInt(c.nHeight) && |c.vout| <= TWO_32 - 6 }

  /** Lines 180-206. */
  function Serialize(k: OutCodec, c: Coins): Bytes
    requires !c.IsPruned() && AllTaken(k, c)
  {
    Write(c.nVersion)
    + (Write(HeaderCode(c) % TWO_32) + (Mask(c, MaskSize(c)) + (WriteOuts(k, c, 0) + Write(c.nHeight))))
  }

  /** Lines 231-239: the part behind the mask. */
  function ReadTail(k: OutCodec, s: Bytes, nVersion: int, code: nat, mask: Bytes): Option<(Coins, Bytes)> {
    var outs := ReadOuts(k, s, Avail(code, mask));
    if outs.None? then None
    else
      var h := ReadInt(outs.value.1);
      if h.None? then None
      else Some((Cleanup(Coins(code % 2 == 1, outs.value.0, h.value.0, nVersion)), h.value.1))
  }

  /** Lines 209-240. */
  function Unserialize(k: OutCodec, s: Bytes): Option<(Coins, Bytes)> {
    var v := ReadInt(s);
    if v.None? then None
    else
      var h := ReadInto(v.value.1, TWO_32);
      if h.None? then None
      else
        var m := ReadMask(h.value.1, MaskCodeOf(h.value.0));
        if m.None? then None else ReadTail(k, m.value.1, v.value.0, h.value.0, m.value.0)
  }

  /** The header code fits its type. */
  lemma HeaderFits(c: Coins)
    requires !c.IsPruned() && |c.vout| <= TWO_32 - 6
    ensures HeaderCode(c) < TWO_32 && HeaderCode(c) % TWO_32 == HeaderCode(c)
  {
    HeaderBound(c);
    NonzeroBound(Mask(c, Reach(c)));
    SmallCode(HeaderCode(c), MaskCode(c), Reach(c));
  }

  lemma HeaderBound(c: Coins)
    requires !c.IsPruned()
    ensures HeaderCode(c) <= 8 * MaskCode(c) + 7
  {
  }

  lemma SmallCode(code: nat, m: nat, n: nat)
    requires code <= 8 * m + 7 && m <= n && 8 * n + 8 <= TWO_32
    ensures code < TWO_32 && code % TWO_32 == code
  {
  }

  lemma {:induction false} NonzeroBound(m: Bytes)
    ensures Nonzero(m) <= |m|
  {
    if m != [] { NonzeroBound(m[..|m| - 1]); }
  }

  lemma {:induction false} TrimIs(v: seq<TxOut>, k: nat)
    requires k <= |v| && (k > 0 ==> !v[k - 1].IsNull()) && forall i :: k <= i < |v| ==> v[i].IsNull()
    ensures Trim(v) == v[..k]
    decreases |v|
  {
    if k == |v| {
      assert v[..k] == v;
    } else {
      TrimIs(v[..|v| - 1], k);
      assert v[..|v| - 1][..k] == v[..k];
    }
  }

  /** Spent outputs at the end do not matter. */
  lemma {:induction false} TrimPadded(v: seq<TxOut>, n: nat)
    requires n <= |v| && forall i :: n <= i < |v| ==> v[i].IsNull()
    ensures Trim(v) == Trim(v[..n])
    decreases |v|
  {
    if n == |v| {
      assert v[..n] == v;
    } else {
      TrimPadded(v[..|v| - 1], n);
      assert v[..|v| - 1][..n] == v[..n];
    }
  }

  /** The record as it comes back. */
  function Reread(k: OutCodec, c: Coins): Coins {
    Coins(c.fCoinBase, OutsFrom(k, c, 0, |c.vout|), Survivor(c.nHeight), Survivor(c.nVersion))
  }

  /** However many positions are read, the same is left after cleaning up. */
  lemma CleanupPadded(k: OutCodec, c: Coins, n: nat)
    requires forall i: nat :: c.IsAvailable(i) ==> i < n
    ensures Trim(OutsFrom(k, c, 0, n)) == Trim(OutsFrom(k, c, 0, |c.vout|))
  {
    var m := if n <= |c.vout| then n else |c.vout|;
    OutsBeyond(k, c, m, n);
    OutsBeyond(k, c, m, |c.vout|);
  }

  lemma OutsBeyond(k: OutCodec, c: Coins, m: nat, n: nat)
    requires m <= n && forall i: nat :: c.IsAvailable(i) ==> i < m
    ensures Trim(OutsFrom(k, c, 0, n)) == Trim(OutsFrom(k, c, 0, m))
  {
    var v := OutsFrom(k, c, 0, n);
    forall i | m <= i < n ensures v[i].IsNull() { assert v[i] == OutAt(k, c, 0 + i); }
    TrimPadded(v, m);
    assert v[..m] == OutsFrom(k, c, 0, m);
  }

  /** Exactly what comes back: everything, but of a negative number only seven bits, and each output as its codec has it. */
  lemma ComesBack(k: OutCodec, c: Coins, t: Bytes)
    requires k.Ok() && !c.IsPruned() && AllTaken(k, c) && Sized(c)
    ensures Unserialize(k, Serialize(k, c) + t) == Some((Cleanup(Reread(k, c)), t))
  {
    var mask := Mask(c, MaskSize(c));
    var tail := WriteOuts(k, c, 0) + Write(c.nHeight);
    HeaderFits(c);
    FourParts(Write(c.nVersion), Write(HeaderCode(c)), mask, tail, t);
    HeaderCodeReads(c);
    MaskWritten(c);
    HeadBack(k, c.nVersion, HeaderCode(c), mask, tail + t);
    TailBack(k, c, t);
  }

  lemma FourParts(a: Bytes, b: Bytes, c: Bytes, d: Bytes, t: Bytes)
    ensures a + (b + (c + d)) + t == a + (b + (c + (d + t)))
  {
  }

  /** The outputs before the last unspent one come back as they are. */
  predicate OutsKept(k: OutCodec, c: Coins) { forall i :: 0 <= i < |Trim(c.vout)| && i < |c.vout| ==> OutAt(k, c, i) == c.vout[i] }

  lemma SameOuts(k: OutCodec, c: Coins)
    ensures Trim(OutsFrom(k, c, 0, |c.vout|)) == Trim(c.vout) <==> OutsKept(k, c)
  {
    var n, p := |Trim(c.vout)|, OutsFrom(k, c, 0, |c.vout|);
    TrimOnlyDropsNulls(c.vout);
    TrimOnlyDropsNulls(p);
    forall i | 0 <= i < |p| ensures p[i] == OutAt(k, c, i) { assert p[i] == OutAt(k, c, 0 + i); }
    if OutsKept(k, c) {
      assert p[..n] == c.vout[..n];
      if n > 0 { assert !p[n - 1].IsNull(); }
      TrimIs(p, n);
    }
    if Trim(p) == Trim(c.vout) {
      forall i | 0 <= i < n && i < |c.vout| ensures OutAt(k, c, i) == c.vout[i] { assert Trim(p)[i] == p[i]; }
    }
  }

  /** Main result: a record with something unspent comes back, spent outputs at the end dropped, exactly if neither
      number is negative and every output before the last unspent one comes back. */
  lemma RoundTrip(k: OutCodec, c: Coins, t: Bytes)
    requires k.Ok() && !c.IsPruned() && AllTaken(k, c) && Sized(c)
    ensures Unserialize(k, Serialize(k, c) + t) == Some((Cleanup(c), t))
        <==> c.nVersion >= 0 && c.nHeight >= 0 && OutsKept(k, c)
  {
    ComesBack(k, c, t);
    SameOuts(k, c);
  }

  lemma HeadBack(k: OutCodec, v: int, code: nat, mask: Bytes, rest: Bytes)
    requires MaskCodeOf(code) == Nonzero(mask) && (mask != [] ==> mask[|mask| - 1] != 0) && IsInt(v) && code < TWO_32
    ensures Unserialize(k, Write(v) + (Write(code) + (mask + rest))) == ReadTail(k, rest, Survivor(v), code, mask)
  {
    IntSurvives(v, Write(code) + (mask + rest));
    UnsignedRoundTrip(code, TWO_32, mask + rest);
    ReadMaskBack(mask, rest);
  }

  lemma TailBack(k: OutCodec, c: Coins, t: Bytes)
    requires k.Ok() && !c.IsPruned() && AllTaken(k, c) && IsInt(c.nHeight)
    ensures ReadTail(k, (WriteOuts(k, c, 0) + Write(c.nHeight)) + t, Survivor(c.nVersion), HeaderCode(c), Mask(c, MaskSize(c)))
         == Some((Cleanup(Reread(k, c)), t))
  {
    var code, mask := HeaderCode(c), Mask(c, MaskSize(c));
    AvailExact(c);
    TailReads(k, c, code, mask, t);
    HeaderCodeReads(c);
    CleanupPadded(k, c, |Avail(code, mask)|);
    SameCleanup(Reread(k, c), OutsFrom(k, c, 0, |Avail(code, mask)|), code % 2 == 1);
  }

  lemma TailReads(k: OutCodec, c: Coins, code: nat, mask: Bytes, t: Bytes)
    requires k.Ok() && AllTaken(k, c) && IsInt(c.nHeight) && Tells(c, 0, Avail(code, mask))
    ensures ReadTail(k, (WriteOuts(k, c, 0) + Write(c.nHeight)) + t, Survivor(c.nVersion), code, mask)
         == Some((Cleanup(Coins(code % 2 == 1, OutsFrom(k, c, 0, |Avail(code, mask)|),
                                Survivor(c.nHeight), Survivor(c.nVersion))), t))
  {
    var n, s := |Avail(code, mask)|, (WriteOuts(k, c, 0) + Write(c.nHeight)) + t;
    assert s == WriteOuts(k, c, 0) + (Write(c.nHeight) + t);
    OutsBack(k, c, 0, Avail(code, mask), Write(c.nHeight) + t);
    IntSurvives(c.nHeight, t);
    ReadTailIs(k, s, Survivor(c.nVersion), code, mask, OutsFrom(k, c, 0, n), Write(c.nHeight) + t, Survivor(c.nHeight), t);
  }

  lemma ReadTailIs(k: OutCodec, s: Bytes, v: int, code: nat, mask: Bytes, outs: seq<TxOut>, rest: Bytes, h: int, t: Bytes)
    requires ReadOuts(k, s, Avail(code, mask)) == Some((outs, rest)) && ReadInt(rest) == Some((h, t))
    ensures ReadTail(k, s, v, code, mask) == Some((Cleanup(Coins(code % 2 == 1, outs, h, v)), t))
  {
  }

  lemma SameCleanup(c: Coins, outs: seq<TxOut>, base: bool)
    requires Trim(outs) == Trim(c.vout) && base == c.fCoinBase
    ensures Cleanup(Coins(base, outs, c.nHeight, c.nVersion)) == Cleanup(c)
  {
  }

  /** The same for the compressed outputs of the source: spent outputs before the last unspent one must be as SetNull
      leaves them, the others must be storable. */
  lemma CompressedRoundTrip(keys: Keys, c: Coins, t: Bytes)
    requires keys.Ok() && !c.IsPruned() && Sized(c)
    requires forall i :: 0 <= i < |c.vout| && !c.vout[i].IsNull() ==> Writable(c.vout[i])
    ensures AllTaken(Compressed(keys), c)
    ensures Unserialize(Compressed(keys), Serialize(Compressed(keys), c) + t) == Some((Cleanup(c), t))
        <==> c.nVersion >= 0 && c.nHeight >= 0
             && forall i :: 0 <= i < |Trim(c.vout)| && i < |c.vout| ==>
                  if c.vout[i].IsNull() then c.vout[i] == NULL_OUT else Storable(c.vout[i])
  {
    var k := Compressed(keys);
    CompressedOk(keys);
    assert AllTaken(k, c);
    RoundTrip(k, c, t);
    forall i | 0 <= i < |c.vout|
      ensures OutAt(k, c, i) == c.vout[i] <==> if c.vout[i].IsNull() then c.vout[i] == NULL_OUT else Storable(c.vout[i])
    {
      if !c.vout[i].IsNull() { ComesBackAs(keys, c.vout[i], t); }
    }
  }

  // ---------------------------------------------------------------- the loops

  lemma {:induction false} PackedNext(c: Coins, i: nat, n: nat)
    ensures Packed(c, i, n + 1) == Packed(c, i, n) + Flag(c, i + n) * L.Pow2(n)
    decreases n
  {
    if n > 0 {
      PackedNext(c, i + 1, n - 1);
      Doubled(Flag(c, i + n), L.Pow2(n - 1));
    }
  }

  lemma Doubled(f: nat, p: nat)
    ensures f * (2 * p) == 2 * (f * p)
  {
  }

  /** Lines 193-197. */
  method BuildMaskByte(c: Coins, b: nat) returns (chAvail: Byte)
    ensures chAvail == MaskByte(c, b)
  {
    var m: nat := 0;
    for i := 0 to 8
      invariant m == Packed(c, 2 + b * 8, i)
    {
      var k := 2 + b * 8 + i;
      FlagAdded(c, 2 + b * 8, i);
      if k < |c.vout| && !c.vout[k].IsNull() {
        m := L.Or(m, L.Pow2(i));
      }
    }
    chAvail := m;
  }

  lemma FlagAdded(c: Coins, i: nat, n: nat)
    ensures Packed(c, i, n + 1) == if c.IsAvailable(i + n) then L.Or(Packed(c, i, n), L.Pow2(n)) else Packed(c, i, n)
  {
    PackedNext(c, i, n);
    L.OrDisjoint(Packed(c, i, n), 1, n);
  }

  /** Lines 192-198. */
  method WriteMask(c: Coins, n: nat) returns (out: Bytes)
    ensures out == Mask(c, n)
  {
    out := [];
    for b := 0 to n
      invariant out == Mask(c, b)
    {
      var chAvail := BuildMaskByte(c, b);
      out := out + [chAvail];
    }
  }

  /** Lines 200-203. */
  method WriteOutputs(k: OutCodec, c: Coins) returns (out: Bytes)
    requires AllTaken(k, c)
    ensures out == WriteOuts(k, c, 0)
  {
    out := [];
    for i := 0 to |c.vout|
      invariant out + WriteOuts(k, c, i) == WriteOuts(k, c, 0)
    {
      OutsStep(k, c, i, []);
      ghost var before := out;
      if !c.vout[i].IsNull() {
        out := out + k.write(c.vout[i]);
      }
      assert WriteOuts(k, c, i) + [] == WriteOuts(k, c, i) && WriteOuts(k, c, i + 1) + [] == WriteOuts(k, c, i + 1);
      assert out + WriteOuts(k, c, i + 1) == before + WriteOuts(k, c, i);
    }
  }

  /** Lines 182-186; the source asserts that something is unspent. */
  method ComputeCode(c: Coins, nMaskCode: nat) returns (nCode: nat)
    requires !c.IsPruned() && nMaskCode == MaskCode(c)
    ensures nCode == HeaderCode(c)
  {
    var fFirst := |c.vout| > 0 && !c.vout[0].IsNull();
    var fSecond := |c.vout| > 1 && !c.vout[1].IsNull();
    SomethingLeft(c);
    assert fFirst || fSecond || nMaskCode > 0;
    nCode := 8 * (nMaskCode - (if fFirst || fSecond then 0 else 1)) + (if c.fCoinBase then 1 else 0)
             + (if fFirst then 2 else 0) + (if fSecond then 4 else 0);
  }

  /** Lines 180-206. */
  method SerializeCoins(k: OutCodec, c: Coins) returns (out: Bytes)
    requires !c.IsPruned() && AllTaken(k, c) && Sized(c)
    ensures out == Serialize(k, c)
  {
    var nMaskSize, nMaskCode := CalcMaskSize(c);
    var nCode := ComputeCode(c, nMaskCode);
    L.Pow32();
    HeaderFits(c);
    var version := WriteVarInt(c.nVersion, 32);
    var header := WriteVarInt(nCode % TWO_32, 32);
    var mask := WriteMask(c, nMaskSize);
    var outs := WriteOutputs(k, c);
    var height := WriteVarInt(c.nHeight, 32);
    out := version + (header + (mask + (outs + height)));
  }

  /** Lines 221-230. */
  method ReadMaskBytes(s: Bytes, code: nat) returns (r: Option<(Bytes, Bytes)>)
    ensures r == ReadMask(s, code)
  {
    var mask: Bytes, rest: Bytes, nMaskCode := [], s, code;
    PrependNothing(ReadMask(s, code));
    while nMaskCode > 0
      invariant 0 <= nMaskCode
      invariant ReadMask(s, code) == Prepend(mask, ReadMask(rest, nMaskCode))
      decreases |rest|, nMaskCode
    {
      if rest == [] { return None; }
      var chAvail := rest[0];
      rest := rest[1..];
      PrependTwice(mask, chAvail, ReadMask(rest, if chAvail != 0 then nMaskCode - 1 else nMaskCode));
      mask := mask + [chAvail];
      if chAvail != 0 {
        nMaskCode := nMaskCode - 1;
      }
    }
    assert mask + [] == mask;
    r := Some((mask, rest));
  }

  lemma PrependNothing(r: Option<(Bytes, Bytes)>)
    ensures Prepend([], r) == r
  {
    if r.Some? { assert [] + r.value.0 == r.value.0; }
  }

  function Prepend(m: Bytes, r: Option<(Bytes, Bytes)>): Option<(Bytes, Bytes)> {
    if r.None? then None else Some((m + r.value.0, r.value.1))
  }

  lemma PrependTwice(m: Bytes, b: Byte, r: Option<(Bytes, Bytes)>)
    ensures Prepend(m + [b], r) == Prepend(m, Prepend([b], r))
  {
    if r.Some? { assert m + [b] + r.value.0 == m + ([b] + r.value.0); }
  }

  /** Lines 216-230: the availabilities, two from the header code and eight from every mask byte. */
  method ReadAvail(code: nat, mask: Bytes) returns (vAvail: seq<bool>)
    ensures vAvail == Avail(code, mask)
  {
    vAvail := [code / 2 % 2 == 1, code / 4 % 2 == 1];
    ghost var head := vAvail;
    for b := 0 to |mask|
      invariant vAvail == head + AllBits(mask[..b])
    {
      var bits: seq<bool> := [];
      for p := 0 to 8
        invariant bits == Bits(mask[b], p)
      {
        bits := bits + [BitAt(mask[b], p)];
      }
      assert mask[..b + 1][..b] == mask[..b];
      vAvail := vAvail + bits;
    }
    assert mask[..|mask|] == mask;
  }

  /** Lines 231-236. */
  method ReadOutputs(k: OutCodec, s: Bytes, vAvail: seq<bool>) returns (r: Option<(seq<TxOut>, Bytes)>)
    ensures r == ReadOuts(k, s, vAvail)
  {
    var vout: seq<TxOut>, rest: Bytes := [], s;
    BehindNothing(ReadOuts(k, s, vAvail));
    assert vAvail[0..] == vAvail;
    for i := 0 to |vAvail|
      invariant ReadOuts(k, s, vAvail) == Behind(vout, ReadOuts(k, rest, vAvail[i..]))
    {
      ghost var before, left := vout, vAvail[i..];
      assert left[0] == vAvail[i] && left[1..] == vAvail[i + 1..];
      if vAvail[i] {
        var o := k.read(rest);
        if o.None? { return None; }
        vout, rest := vout + [o.value.0], o.value.1;
      } else {
        vout := vout + [NULL_OUT];
      }
      BehindTwice(before, vout[|before|], ReadOuts(k, rest, vAvail[i + 1..]));
    }
    assert vAvail[|vAvail|..] == [] && vout + [] == vout;
    r := Some((vout, rest));
  }

  lemma BehindNothing(r: Option<(seq<TxOut>, Bytes)>)
    ensures Behind([], r) == r
  {
    if r.Some? { assert [] + r.value.0 == r.value.0; }
  }

  function Behind(v: seq<TxOut>, r: Option<(seq<TxOut>, Bytes)>): Option<(seq<TxOut>, Bytes)> {
    if r.None? then None else Some((v + r.value.0, r.value.1))
  }

  lemma BehindTwice(v: seq<TxOut>, o: TxOut, r: Option<(seq<TxOut>, Bytes)>)
    ensures Behind(v + [o], r) == Behind(v, Behind([o], r))
  {
    if r.Some? { assert v + [o] + r.value.0 == v + ([o] + r.value.0); }
  }

  /** Lines 231-239. */
  method ReadOutputsAndHeight(k: OutCodec, s: Bytes, nVersion: int, code: nat, mask: Bytes) returns (r: Option<(Coins, Bytes)>)
    ensures r == ReadTail(k, s, nVersion, code, mask)
  {
    var vAvail := ReadAvail(code, mask);
    var outs := ReadOutputs(k, s, vAvail);
    if outs.None? { return None; }
    var h := ReadVarInt(outs.value.1, TWO_32);
    if h.None? { return None; }
    var c := RunCleanup(Coins(code % 2 == 1, outs.value.0, Signed(h.value.0), nVersion));
    r := Some((c, h.value.1));
  }

  /** Lines 209-240. */
  method UnserializeCoins(k: OutCodec, s: Bytes) returns (r: Option<(Coins, Bytes)>)
    ensures r == Unserialize(k, s)
  {
    var v := ReadVarInt(s, TWO_32);
    if v.None? { return None; }
    var h := ReadVarInt(v.value.1, TWO_32);
    if h.None? { return None; }
    var code := h.value.0;
    var m := ReadMaskBytes(h.value.1, code / 8 + if code / 2 % 4 != 0 then 0 else 1);
    if m.None? { return None; }
    r := ReadOutputsAndHeight(k, m.value.1, Signed(v.value.0), code, m.value.0);
  }
}
