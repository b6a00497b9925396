/** The script and output compression of src/compressor.{h,cpp}. */
module Compressor {
  import opened Amounts
  import opened Basics
  import opened TxCoins
  import opened VarInt

  // ---------------------------------------------------------------- scripts

  const OP_RETURN: Byte := 0x6a
  const OP_DUP: Byte := 0x76
  const OP_EQUAL: Byte := 0x87
  const OP_EQUALVERIFY: Byte := 0x88
  const OP_HASH160: Byte := 0xa9
  const OP_CHECKSIG: Byte := 0xac
  const MAX_SCRIPT_SIZE: nat := 10000

  /** The public-key arithmetic: validity of a full key, and the full key of a short one. */
  datatype Keys = Keys(valid: Bytes -> bool, expand: Bytes -> Option<Bytes>) {
    /** A valid full key is recovered from its x coordinate and the parity of y. */
    ghost predicate Ok() {
      && (forall k {:trigger valid(k)} :: |k| == 65 && k[0] == 4 && valid(k) ==> expand(Short(k)) == Some(k))
      && (forall v {:trigger expand(v)} :: expand(v).Some? ==> |expand(v).value| == 65)
    }
  }

  function Short(k: Bytes): Bytes
    requires |k| == 65
  {
    [2 + k[64] % 2] + k[1..33]
  }

  predicate IsToKeyId(s: Bytes) {
    |s| == 25 && s[0] == OP_DUP && s[1] == OP_HASH160 && s[2] == 20 && s[23] == OP_EQUALVERIFY && s[24] == OP_CHECKSIG
  }

  predicate IsToScriptId(s: Bytes) {
    |s| == 23 && s[0] == OP_HASH160 && s[1] == 20 && s[22] == OP_EQUAL
  }

  predicate IsToShortKey(s: Bytes) {
    |s| == 35 && s[0] == 33 && s[34] == OP_CHECKSIG && (s[1] == 2 || s[1] == 3)
  }

  predicate IsToFullKey(keys: Keys, s: Bytes) {
    |s| == 67 && s[0] == 65 && s[66] == OP_CHECKSIG && s[1] == 4 && keys.valid(s[1..66])
  }

  /** Lines 63-92. */
  function Compress(keys: Keys, s: Bytes): Option<Bytes> {
    if IsToKeyId(s) then Some([0] + s[3..23])
    else if IsToScriptId(s) then Some([1] + s[2..22])
    else if IsToShortKey(s) then Some([s[1]] + s[2..34])
    else if IsToFullKey(keys, s) then Some([4 + s[65] % 2] + s[2..34])
    else None
  }

  /** The four script templates and the code and payload of each: to a key hash (0), to a script hash (1), to a short key
      (2 and 3, its first byte) and to a full key (4 and 5, the parity of its y). */
  ghost predicate Template(keys: Keys, s: Bytes, code: Byte, v: Bytes) {
    || (code == 0 && |v| == 20 && s == [0x76, 0xa9, 20] + v + [0x88, 0xac])
    || (code == 1 && |v| == 20 && s == [0xa9, 20] + v + [0x87])
    || (2 <= code <= 3 && |v| == 32 && s == [33, code] + v + [0xac])
    || (4 <= code <= 5 && |v| == 32 && exists y: Bytes :: ToFullKey(keys, s, v, y) && code == 4 + y[31] % 2)
  }

  predicate ToFullKey(keys: Keys, s: Bytes, x: Bytes, y: Bytes) {
    |y| == 32 && s == [65, 4] + x + y + [0xac] && keys.valid([4] + x + y)
  }

  lemma CompressedTemplate(keys: Keys, s: Bytes)
    requires Compress(keys, s).Some?
    ensures var c := Compress(keys, s).value; c != [] && Template(keys, s, c[0], c[1..])
  {
    var c := Compress(keys, s).value;
    if IsToKeyId(s) {
      assert c[1..] == s[3..23] && s == [0x76, 0xa9, 20] + s[3..23] + [0x88, 0xac];
    } else if IsToScriptId(s) {
      assert c[1..] == s[2..22] && s == [0xa9, 20] + s[2..22] + [0x87];
    } else if IsToShortKey(s) {
      assert c[1..] == s[2..34] && s == [33, s[1]] + s[2..34] + [0xac];
    } else {
      var x, y := s[2..34], s[34..66];
      assert c[1..] == x && s == [65, 4] + x + y + [0xac] && s[1..66] == [4] + x + y;
      assert ToFullKey(keys, s, x, y) && y[31] == s[65];
    }
  }

  lemma TemplateCompressed(keys: Keys, s: Bytes, code: Byte, v: Bytes)
    requires Template(keys, s, code, v)
    ensures Compress(keys, s) == Some([code] + v)
  {
    if code == 0 {
      assert s[3..23] == v;
    } else if code == 1 {
      assert s[2..22] == v;
    } else if code <= 3 {
      assert s[2..34] == v && s[1] == code;
    } else {
      var y :| ToFullKey(keys, s, v, y) && code == 4 + y[31] % 2;
      assert s[2..34] == v && s[1..66] == [4] + v + y && s[65] == y[31];
    }
  }

  /** A script is compressed exactly if it is one of the templates, to its code and payload. */
  lemma CompressExact(keys: Keys, s: Bytes, code: Byte, v: Bytes)
    ensures Compress(keys, s) == Some([code] + v) <==> Template(keys, s, code, v)
    ensures Compress(keys, s).None? ==> !Template(keys, s, code, v)
    ensures Compress(keys, s).Some? ==> exists n, u :: Template(keys, s, n, u)
  {
    if Compress(keys, s).Some? {
      CompressedTemplate(keys, s);
      var c := Compress(keys, s).value;
      assert Template(keys, s, c[0], c[1..]);
      if c == [code] + v { assert c[0] == code && c[1..] == v; }
    }
    if Template(keys, s, code, v) { TemplateCompressed(keys, s, code, v); }
  }

  function SpecialSize(n: nat): nat {
    if n == 0 || n == 1 then 20 else if 2 <= n <= 5 then 32 else 0
  }

  /** Lines 103-146; a key that cannot be expanded leaves the script empty. */
  function Decompress(keys: Keys, n: nat, v: Bytes): Bytes
    requires n < 6 && |v| == SpecialSize(n)
  {
    if n == 0 then [OP_DUP, OP_HASH160, 20] + v + [OP_EQUALVERIFY, OP_CHECKSIG]
    else if n == 1 then [OP_HASH160, 20] + v + [OP_EQUAL]
    else if n < 4 then [33, n] + v + [OP_CHECKSIG]
    else
      var k := keys.expand([n - 2] + v);
      if k.None? then [] else [65] + k.value + [OP_CHECKSIG]
  }

  /** Lines 73-83 of the header; the size is kept in 32 bits. */
  function WriteScript(keys: Keys, s: Bytes): Bytes {
    var c := Compress(keys, s);
    if c.Some? then c.value else Write((|s| + 6) % TWO_32) + s
  }

  function Take(s: Bytes, n: nat): Option<(Bytes, Bytes)> {
    if n <= |s| then Some((s[..n], s[n..])) else None
  }

  /** Lines 85-104 of the header, into an empty script. */
  function ReadScript(keys: Keys, s: Bytes): Option<(Bytes, Bytes)> {
    var r := ReadInto(s, TWO_32);
    if r.None? then None
    else
      var (n, t) := r.value;
      var size := if n < 6 then SpecialSize(n) else n - 6;
      var body := Take(t, size);
      if body.None? then None
      else if n < 6 then Some((Decompress(keys, n, body.value.0), body.value.1))
      else if size > MAX_SCRIPT_SIZE then Some(([OP_RETURN], body.value.1))
      else body
  }

  lemma ReadSmall(b: Byte, t: Bytes)
    requires b < 128
    ensures ReadInto([b] + t, TWO_32) == Some((b as nat, t))
  {
    assert ([b] + t)[1..] == t;
  }

  lemma TakeFront(u: Bytes, t: Bytes)
    ensures Take(u + t, |u|) == Some((u, t))
  {
    assert (u + t)[..|u|] == u && (u + t)[|u|..] == t;
  }

  /** A special script is rebuilt from its code and payload. */
  lemma DecompressCompressed(keys: Keys, s: Bytes)
    requires keys.Ok() && Compress(keys, s).Some?
    ensures var c := Compress(keys, s).value;
            && |c| > 0 && c[0] < 6 && |c[1..]| == SpecialSize(c[0])
            && Decompress(keys, c[0], c[1..]) == s
  {
    var c := Compress(keys, s).value;
    if IsToKeyId(s) {
      assert c[1..] == s[3..23] && s == [OP_DUP, OP_HASH160, 20] + s[3..23] + [OP_EQUALVERIFY, OP_CHECKSIG];
    } else if IsToScriptId(s) {
      assert c[1..] == s[2..22] && s == [OP_HASH160, 20] + s[2..22] + [OP_EQUAL];
    } else if IsToShortKey(s) {
      assert c[1..] == s[2..34] && s == [33, s[1]] + s[2..34] + [OP_CHECKSIG];
    } else {
      FullKey(keys, s);
    }
  }

  lemma FullKey(keys: Keys, s: Bytes)
    requires keys.Ok() && IsToFullKey(keys, s)
    ensures Decompress(keys, 4 + s[65] % 2, s[2..34]) == s
  {
    var k := s[1..66];
    assert k[64] == s[65] && k[1..33] == s[2..34] && k[0] == 4;
    assert keys.expand(Short(k)) == Some(k);
    assert s == [65] + k + [OP_CHECKSIG];
  }

  /** No script longer than the limit is ever read. */
  lemma ReadScriptShort(keys: Keys, u: Bytes)
    requires keys.Ok() && ReadScript(keys, u).Some?
    ensures |ReadScript(keys, u).value.0| <= MAX_SCRIPT_SIZE
  {
    var (n, t) := ReadInto(u, TWO_32).value;
    if n < 6 {
      var v := Take(t, SpecialSize(n)).value.0;
      if n >= 4 { assert keys.expand([n - 2] + v).Some? ==> |keys.expand([n - 2] + v).value| == 65; }
      assert |Decompress(keys, n, v)| <= 67;
    }
  }

  lemma SpecialBack(keys: Keys, s: Bytes, t: Bytes)
    requires keys.Ok() && Compress(keys, s).Some?
    ensures ReadScript(keys, WriteScript(keys, s) + t) == Some((s, t))
  {
    var c := Compress(keys, s).value;
    DecompressCompressed(keys, s);
    var b, v := c[0], c[1..];
    assert c + t == [b] + (v + t);
    ReadSmall(b, v + t);
    TakeFront(v, t);
  }

  lemma PlainBack(keys: Keys, s: Bytes, t: Bytes)
    requires Compress(keys, s).None? && |s| + 6 < TWO_32
    ensures ReadScript(keys, WriteScript(keys, s) + t) == Some((if |s| <= MAX_SCRIPT_SIZE then s else [OP_RETURN], t))
  {
    var n := |s| + 6;
    assert n % TWO_32 == n;
    assert Write(n) + s + t == Write(n) + (s + t);
    PlainReads(keys, s, n, t);
  }

  lemma PlainReads(keys: Keys, s: Bytes, n: nat, t: Bytes)
    requires n == |s| + 6 < TWO_32
    ensures ReadScript(keys, Write(n) + (s + t)) == Some((if |s| <= MAX_SCRIPT_SIZE then s else [OP_RETURN], t))
  {
    UnsignedRoundTrip(n, TWO_32, s + t);
    TakeFront(s, t);
  }

  /** A script comes back exactly if it is within the size limit; any other one that 32 bits can count is replaced by a
      short invalid one. */
  lemma ScriptRoundTrip(keys: Keys, s: Bytes, t: Bytes)
    requires keys.Ok()
    ensures ReadScript(keys, WriteScript(keys, s) + t) == Some((s, t)) <==> |s| <= MAX_SCRIPT_SIZE
    ensures MAX_SCRIPT_SIZE < |s| < TWO_32 - 6 ==> ReadScript(keys, WriteScript(keys, s) + t) == Some(([OP_RETURN], t))
  {
    var u := WriteScript(keys, s) + t;
    if Compress(keys, s).Some? {
      SpecialBack(keys, s, t);
    } else if |s| + 6 < TWO_32 {
      PlainBack(keys, s, t);
    }
    if ReadScript(keys, u) == Some((s, t)) { ReadScriptShort(keys, u); }
  }

  // ---------------------------------------------------------------- outputs

  /** The values of CAmount, a signed type of 64 bits. */
  predicate IsAmount(v: int) { -(TWO_64 as int) / 2 <= v < TWO_64 / 2 }

  /** The casts of an amount to 64 unsigned bits and back. */
  function Unsigned(v: int): U64 { v % TWO_64 }
  function ToAmount(u: U64): int { if u < TWO_64 / 2 then u else u - TWO_64 }

  lemma CastsInvert(v: int, u: U64)
    requires IsAmount(v)
    ensures ToAmount(u) == v <==> u == Unsigned(v)
  {
  }

  function WriteOut(keys: Keys, o: TxOut): Bytes {
    Write(Compress64(Unsigned(o.nValue))) + WriteScript(keys, o.script)
  }

  function ReadOut(keys: Keys, s: Bytes): Option<(TxOut, Bytes)> {
    var r := ReadInto(s, TWO_64);
    if r.None? then None
    else
      var (x, t) := r.value;
      var q := ReadScript(keys, t);
      if q.None? then None else Some((TxOut(ToAmount(Decompress64(x)), q.value.0), q.value.1))
  }

  /** The outputs that compression keeps: those with a short script and an amount, as an unsigned number, that is a
      multiple of ten or no larger than LAST_SAFE. */
  predicate Storable(o: TxOut) {
    && IsAmount(o.nValue) && (Unsigned(o.nValue) % 10 == 0 || Unsigned(o.nValue) <= LAST_SAFE)
    && |o.script| <= MAX_SCRIPT_SIZE
  }

  lemma PairBack(keys: Keys, x: U64, s: Bytes, t: Bytes)
    ensures var q := ReadScript(keys, WriteScript(keys, s) + t);
            ReadOut(keys, Write(x) + WriteScript(keys, s) + t)
            == if q.None? then None else Some((TxOut(ToAmount(Decompress64(x)), q.value.0), q.value.1))
  {
    assert Write(x) + WriteScript(keys, s) + t == Write(x) + (WriteScript(keys, s) + t);
    UnsignedRoundTrip(x, TWO_64, WriteScript(keys, s) + t);
  }

  /** Main result: an output comes back, the stream behind it untouched, exactly if it is one of those. */
  lemma OutRoundTrip(keys: Keys, o: TxOut, t: Bytes)
    requires keys.Ok() && IsAmount(o.nValue)
    ensures ReadOut(keys, WriteOut(keys, o) + t) == Some((o, t)) <==> Storable(o)
  {
    var u := Unsigned(o.nValue);
    PairBack(keys, Compress64(u), o.script, t);
    ScriptRoundTrip(keys, o.script, t);
    AmountRoundTrip(u);
    CastsInvert(o.nValue, Decompress64(Compress64(u)));
  }

  /** A positive amount that is lost: 20.5 billion coins and a few units come back as ten thousand units. */
  lemma OutputLost(keys: Keys, script: Bytes, t: Bytes)
    requires keys.Ok() && |script| <= MAX_SCRIPT_SIZE
    ensures var o := TxOut(2049638230412172403, script);
            IsAmount(o.nValue) && ReadOut(keys, WriteOut(keys, o) + t) == Some((TxOut(10000, script), t))
  {
    AmountLost();
    PairBack(keys, 5, script, t);
    ScriptRoundTrip(keys, script, t);
  }

  /** What an output comes back as. */
  function OutBack(o: TxOut): TxOut {
    TxOut(ToAmount(Decompress64(Compress64(Unsigned(o.nValue)))), if |o.script| <= MAX_SCRIPT_SIZE then o.script else [OP_RETURN])
  }

  /** An amount of the right type and a script whose size 32 bits can count. */
  predicate Writable(o: TxOut) { IsAmount(o.nValue) && |o.script| < TWO_32 - 6 }

  lemma ComesBackAs(keys: Keys, o: TxOut, t: Bytes)
    requires keys.Ok() && Writable(o)
    ensures ReadOut(keys, WriteOut(keys, o) + t) == Some((OutBack(o), t)) && (OutBack(o) == o <==> Storable(o))
  {
    PairBack(keys, Compress64(Unsigned(o.nValue)), o.script, t);
    ScriptRoundTrip(keys, o.script, t);
    OutRoundTrip(keys, o, t);
  }

  /** A way to write and read single outputs, and what becomes of those it takes. */
  datatype OutCodec = OutCodec(write: TxOut -> Bytes, read: Bytes -> Option<(TxOut, Bytes)>, takes: TxOut -> bool, back: TxOut -> TxOut) {
    ghost predicate Ok() {
      forall o, t {:trigger read(write(o) + t)} :: takes(o) ==> read(write(o) + t) == Some((back(o), t))
    }
  }

  function Compressed(keys: Keys): OutCodec {
    OutCodec(o => WriteOut(keys, o), s => ReadOut(keys, s), o => Writable(o), o => OutBack(o))
  }

  lemma CompressedOk(keys: Keys)
    requires keys.Ok()
    ensures Compressed(keys).Ok()
  {
    var c := Compressed(keys);
    forall o, t | c.takes(o) ensures c.read(c.write(o) + t) == Some((c.back(o), t)) {
      ComesBackAs(keys, o, t);
    }
  }
}
