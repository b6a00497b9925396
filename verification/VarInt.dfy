/**
 * The variable-length integers of src/serialize.h:461-490, base 128 with every continuation counted in.  They are
 * written from, and read into, types of a fixed width.
 */
module VarInt {
  import opened Basics
  import L = Limbs

  /** The groups before the last: each carries the continuation bit. */
  function Continued(n: nat): Bytes {
    (if n <= 0x7F then [] else Continued(n / 128 - 1)) + [n % 128 + 128]
  }

  /** A negative number is at most 0x7F, so a single byte is written for it. */
  function Write(n: int): Bytes {
    (if n <= 0x7F then [] else Continued(n / 128 - 1)) + [n % 128]
  }

  /** Read on from s with n gathered so far; none where the stream ends early. */
  function ReadFrom(s: Bytes, n: nat): Option<(nat, Bytes)> {
    if s == [] then None
    else
      var m := n * 128 + s[0] % 128;
      if s[0] >= 128 then ReadFrom(s[1..], m + 1) else Some((m, s[1..]))
  }

  function Read(s: Bytes): Option<(nat, Bytes)> { ReadFrom(s, 0) }

  lemma {:induction false} ReadContinued(n: nat, t: Bytes)
    ensures Read(Continued(n) + t) == ReadFrom(t, n + 1)
  {
    var b: Byte := n % 128 + 128;
    if n <= 0x7F {
      assert Continued(n) + t == [b] + t;
    } else {
      ReadContinued(n / 128 - 1, [b] + t);
      assert Continued(n) + t == Continued(n / 128 - 1) + ([b] + t);
    }
    assert ([b] + t)[1..] == t;
  }

  lemma ReadWritten(n: nat, t: Bytes)
    ensures Read(Write(n) + t) == Some((n, t))
  {
    var b: Byte := n % 128;
    if n <= 0x7F {
      assert Write(n) + t == [b] + t;
    } else {
      ReadContinued(n / 128 - 1, [b] + t);
      assert Write(n) + t == Continued(n / 128 - 1) + ([b] + t);
    }
    assert ([b] + t)[1..] == t;
  }

  lemma {:induction false} ReadIsWritten(s: Bytes, n: nat)
    requires ReadFrom(s, n).Some?
    ensures var (v, t) := ReadFrom(s, n).value;
            (if n == 0 then [] else Continued(n - 1)) + s == Write(v) + t
  {
    var before := if n == 0 then [] else Continued(n - 1);
    var m := n * 128 + s[0] % 128;
    LastGroup(n, s[0], m);
    assert before + s == before + [s[0]] + s[1..];
    if s[0] >= 128 { ReadIsWritten(s[1..], m + 1); }
  }

  lemma LastGroup(n: nat, b: Byte, m: nat)
    requires m == n * 128 + b % 128
    ensures var before := if n == 0 then [] else Continued(n - 1);
            before + [b] == if b >= 128 then Continued(m) else Write(m)
  {
    assert m / 128 == n && m % 128 == b % 128;
  }

  lemma WrittenOnce(s: Bytes)
    requires Read(s).Some?
    ensures s == Write(Read(s).value.0) + Read(s).value.1
  {
    ReadIsWritten(s, 0);
    assert [] + s == s;
  }

  // ---------------------------------------------------------------- types of a fixed width

  /** Reading into an unsigned type of m values: all that overflows is lost. */
  function ReadInto(s: Bytes, m: nat): Option<(nat, Bytes)>
    requires m > 0
  {
    var r := Read(s);
    if r.None? then None else Some((r.value.0 % m, r.value.1))
  }

  /** The signed number with the bits of x. */
  function Signed(x: nat): int { if x % TWO_32 < TWO_32 / 2 then x % TWO_32 else x % TWO_32 - TWO_32 }

  /** Reading into an `int`. */
  function ReadInt(s: Bytes): Option<(int, Bytes)> {
    var r := ReadInto(s, TWO_32);
    if r.None? then None else Some((Signed(r.value.0), r.value.1))
  }

  predicate IsInt(n: int) { -(TWO_32 as int) / 2 <= n < TWO_32 / 2 }

  /** What an `int` comes back as: of a negative one only seven bits are written. */
  function Survivor(n: int): int { if n >= 0 then n else n % 128 }

  lemma UnsignedRoundTrip(n: nat, m: nat, t: Bytes)
    requires n < m
    ensures ReadInto(Write(n) + t, m) == Some((n, t))
  {
    ReadWritten(n, t);
    FitsExactly(n, m);
  }

  lemma FitsExactly(n: nat, m: nat)
    requires m > 0
    ensures n % m == n <==> n < m
  {
    if n < m { L.ModIs(n, 0, m, n); } else { L.DivMod(n, m); }
  }

  lemma IntSurvives(n: int, t: Bytes)
    requires IsInt(n)
    ensures ReadInt(Write(n) + t) == Some((Survivor(n), t))
  {
    if n >= 0 {
      UnsignedRoundTrip(n, TWO_32, t);
    } else {
      var b: Byte := n % 128;
      assert Write(n) + t == [b] + t && ([b] + t)[1..] == t;
    }
  }

  /** An `int` comes back, with the stream behind it untouched, exactly if it is not negative. */
  lemma RoundTripExact(n: int, t: Bytes)
    requires IsInt(n)
    ensures ReadInt(Write(n) + t) == Some((n, t)) <==> n >= 0
  {
    IntSurvives(n, t);
  }

  /** The bytes read are the ones that would be written exactly if nothing was lost: a number has one encoding that
      fits its type, and others that do not. */
  lemma EncodingUnique(s: Bytes, m: nat)
    requires m > 0 && Read(s).Some?
    ensures ReadInto(s, m) == Some((Read(s).value.0 % m, Read(s).value.1))
    ensures s == Write(ReadInto(s, m).value.0) + ReadInto(s, m).value.1 <==> Read(s).value.0 < m
  {
    WrittenOnce(s);
    var (n, t) := Read(s).value;
    FitsExactly(n, m);
    ReadWritten(n % m, t);
  }

  /** The same for an `int`. */
  lemma IntEncodingUnique(s: Bytes)
    requires Read(s).Some?
    ensures s == Write(ReadInt(s).value.0) + ReadInt(s).value.1 <==> Read(s).value.0 < TWO_32 / 2
  {
    WrittenOnce(s);
    var (n, t) := Read(s).value;
    var v := ReadInt(s).value.0;
    if v >= 0 {
      ReadWritten(v, t);
    } else {
      var b: Byte := v % 128;
      assert Write(v) + t == [b] + t && ([b] + t)[1..] == t;
      assert n >= TWO_32 / 2;
    }
  }

  /** A second encoding of 5, for an unsigned type of 32 bits. */
  lemma SecondEncoding()
    ensures ReadInto(Write(TWO_32 + 5), TWO_32) == Some((5, [])) && Write(TWO_32 + 5) != Write(5)
  {
    ReadWritten(TWO_32 + 5, []);
    ReadWritten(5, []);
    assert Write(TWO_32 + 5) + [] == Write(TWO_32 + 5) && Write(5) + [] == Write(5);
  }

  // ---------------------------------------------------------------- the loops

  lemma {:induction false} Sevens(k: nat)
    ensures L.Pow2(7 * (k + 1)) == 128 * L.Pow2(7 * k)
  {
    L.Pow2Add(7, 7 * k);
    assert L.Pow2(7) == 128;
  }

  /** One group less. */
  lemma GroupLess(m: int, k: nat)
    requires 0x7F < m < L.Pow2(7 * (k + 1))
    ensures 0 <= m / 128 - 1 < L.Pow2(7 * k) && k > 0
  {
    Sevens(k);
  }

  /** The next group goes before those there are. */
  lemma OneGroup(m: nat, before: Bytes, after: Bytes)
    requires after == before + [m % 128 + 128]
    ensures Continued(m) + Reversed(before) == (if m <= 0x7F then [] else Continued(m / 128 - 1)) + Reversed(after)
  {
    assert after[..|after| - 1] == before;
  }

  /** Lines 461-476: groups are produced last first and then written in reverse.  The buffer of one byte for every
      seven bits of the type is long enough. */
  method WriteVarInt(n: int, bits: nat) returns (out: Bytes)
    requires bits > 0 && n < L.Pow2(bits)
    ensures out == Write(n)
  {
    ghost var room := (bits + 6) / 7;
    var tmp := new Byte[(bits + 6) / 7];
    L.Pow2Grows(bits, 7 * room);
    var len, m := 0, n;
    tmp[0] := n % 128;
    assert Reversed(tmp[..1]) == [n % 128] by { assert tmp[..1][..0] == []; }
    while m > 0x7F
      invariant 0 <= len < tmp.Length == room && m < L.Pow2(7 * (room - len))
      invariant Write(n) == (if m <= 0x7F then [] else Continued(m / 128 - 1)) + Reversed(tmp[..len + 1])
      decreases m
    {
      GroupLess(m, room - len - 1);
      m := m / 128 - 1;
      len := len + 1;
      ghost var before := tmp[..len];
      tmp[len] := m % 128 + 128;
      OneGroup(m, before, tmp[..len + 1]);
    }
    assert [] + Reversed(tmp[..len + 1]) == Reversed(tmp[..len + 1]);
    out := WriteBackwards(tmp, len + 1);
  }

  /** Lines 473-475. */
  method WriteBackwards(tmp: array<Byte>, size: nat) returns (out: Bytes)
    requires size <= tmp.Length
    ensures out == Reversed(tmp[..size])
  {
    out := [];
    var len := size;
    while len > 0
      invariant 0 <= len <= size && Reversed(tmp[..size]) == out + Reversed(tmp[..len])
    {
      len := len - 1;
      out := out + [tmp[len]];
      assert tmp[..len + 1][..len] == tmp[..len];
    }
  }

  function Reversed(s: Bytes): Bytes {
    if s == [] then [] else [s[|s| - 1]] + Reversed(s[..|s| - 1])
  }

  lemma ShiftedMod(x: nat, g: nat, w: nat)
    requires w > 0 && g < 128
    ensures (x * 128 + g) % (128 * w) == x % w * 128 + g
  {
    var q, v := x / w, x % w;
    L.DivMod(x, w);
    assert v * 128 + g + q * (128 * w) == x * 128 + g by { assert q * (128 * w) == 128 * (q * w); }
    assert v * 128 + g < 128 * w;
    L.ModIs(v * 128 + g, q, 128 * w, x * 128 + g);
  }

  lemma {:induction false} ModTwice(x: nat, w: nat)
    requires w > 0
    ensures x % (128 * w) % w == x % w
  {
    var m := 128 * w;
    L.DivMod(x, m);
    L.DivMod(x % m, w);
    var q, p := x / m, x % m / w;
    assert x % m % w + (128 * q + p) * w == x by { assert (128 * q + p) * w == q * (128 * w) + p * w; }
    L.ModIs(x % m % w, 128 * q + p, w, x);
  }

  /** Shifting out what overflows first loses nothing more. */
  lemma ShiftInto(n: nat, g: nat, m: nat, w: nat)
    requires w > 0 && m == 128 * w && g < 128
    ensures (n % m) * 128 % m + g == (n * 128 + g) % m
  {
    ModTwice(n, w);
    ShiftedMod(n, g, w);
    ShiftedMod(n % m, 0, w);
  }

  lemma PlusOneInto(x: nat, m: nat)
    requires m > 0
    ensures (x % m + 1) % m == (x + 1) % m
  {
    var q, v := x / m, x % m;
    L.DivMod(x, m);
    if v + 1 < m {
      L.ModIs(v + 1, q, m, x + 1);
      L.ModIs(v + 1, 0, m, v + 1);
    } else {
      assert (q + 1) * m == q * m + m;
      L.ModIs(0, q + 1, m, x + 1);
      L.ModIs(0, 1, m, m);
    }
  }

  /** Lines 478-490, into an unsigned type of m values. */
  method ReadVarInt(s: Bytes, m: nat) returns (r: Option<(nat, Bytes)>)
    requires m > 0 && m % 128 == 0
    ensures r == ReadInto(s, m)
  {
    var n: nat, rest: Bytes := 0, s;
    ghost var all: nat := 0;
    while rest != []
      invariant n == all % m && Read(s) == ReadFrom(rest, all)
      decreases |rest|
    {
      var ch := rest[0];
      rest := rest[1..];
      ShiftInto(all, ch % 128, m, m / 128);
      PlusOneInto(all * 128 + ch % 128, m);
      all := all * 128 + ch % 128;
      n := n * 128 % m + ch % 128;
      if ch >= 128 {
        n := (n + 1) % m;
        all := all + 1;
      } else {
        return Some((n, rest));
      }
    }
    r := None;
  }
}
