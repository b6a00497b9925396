/**
 * The fixed-width unsigned integers of src/arith_uint256.{h,cpp}: every in-place limb algorithm against the
 * integers modulo 2^(32 * width).  The 256-bit type is the instance of width eight.
 */
module ArithUint {
  import opened Basics
  import opened Limbs

  datatype Result = Ok | DivisionByZero

  /** Two limb-sized addends and a product of two limbs: the 64-bit sum never overflows. */
  method MulAdd(c: U32, p: U32, a: U32, b: U32) returns (low: U32, high: U32, n: nat)
    ensures n == c + p + a * b < B * B && low == n % B && high == n / B
  {
    NoOverflow(c, p, a, b);
    n := c + p + a * b;
    low, high := n % B, n / B;
  }

  lemma NothingYet(q: nat, d: nat, n: nat)
    requires q == 0
    ensures q * d + n == n
  {
  }

  class BaseUint {
    const pn: array<U32>

    ghost predicate Like(b: BaseUint) { pn.Length == b.pn.Length }

    ghost function Val(): (v: nat)
      reads pn
    {
      Value(pn[..])
    }

    ghost function Modulus(): (m: nat)
      ensures m > 0
    {
      Weight(pn.Length)
    }

    constructor (width: nat)
      ensures fresh(pn) && pn.Length == width && Val() == 0
    {
      pn := new U32[width](_ => 0);
      new;
      NumZero(pn[..], 0, width);
    }

    constructor Copy(b: BaseUint)
      ensures fresh(pn) && Like(b) && pn[..] == b.pn[..]
    {
      var src := b.pn;
      pn := new U32[src.Length](i requires 0 <= i < src.Length reads src => src[i]);
    }

    /** Lines 151-161 of the header; b may be this very number. */
    method AddAssign(b: BaseUint)
      requires Like(b)
      modifies pn
      ensures Val() == (old(Val()) + old(b.Val())) % Modulus()
    {
      ghost var x, y := pn[..], b.pn[..];
      var carry := 0;
      for i := 0 to pn.Length
        invariant 0 <= carry <= 1
        invariant forall k :: i <= k < pn.Length ==> pn[k] == x[k] && b.pn[k] == y[k]
        invariant Num(pn[..], i) + carry * Weight(i) == Num(x, i) + Num(y, i)
      {
        ghost var before := pn[..];
        var n := carry + pn[i] + b.pn[i];
        pn[i] := n % B;
        AddStep(x, y, before, pn[..], i, carry);
        carry := n / B;
      }
      NumBound(pn[..], pn.Length);
      ModIs(Val(), carry, Modulus(), Value(x) + Value(y));
    }

    /** Lines 189-196: the carry runs on while limbs wrap to zero. */
    method Increment()
      requires pn.Length > 0
      modifies pn
      ensures Val() == (old(Val()) + 1) % Modulus()
    {
      ghost var x := pn[..];
      var i := 0;
      pn[i] := (pn[i] + 1) % B;
      while pn[i] == 0 && i < pn.Length - 1
        invariant CountedUp(x, pn[..], i)
        decreases pn.Length - i
      {
        i := i + 1;
        pn[i] := (pn[i] + 1) % B;
      }
      CountedUpBy1(x, pn[..], i);
    }

    /** Lines 206-213. */
    method Decrement()
      requires pn.Length > 0
      modifies pn
      ensures Val() == (old(Val()) + Modulus() - 1) % Modulus()
    {
      ghost var x := pn[..];
      var i := 0;
      pn[i] := (pn[i] - 1) % B;
      while pn[i] == B - 1 && i < pn.Length - 1
        invariant CountedUp(pn[..], x, i)
        decreases pn.Length - i
      {
        i := i + 1;
        pn[i] := (pn[i] - 1) % B;
      }
      CountedUpBy1(pn[..], x, i);
    }

    /** Lines 93-100: complement, then count up. */
    method Negated() returns (r: BaseUint)
      requires pn.Length > 0
      ensures fresh(r) && fresh(r.pn) && Like(r)
      ensures r.Val() == (Modulus() - Val()) % Modulus()
    {
      r := new BaseUint(pn.Length);
      for i := 0 to pn.Length
        invariant forall k :: 0 <= k < i ==> r.pn[k] == B - 1 - pn[k]
      {
        r.pn[i] := B - 1 - pn[i];
      }
      NumComplement(pn[..], r.pn[..], pn.Length);
      r.Increment();
    }

    /** Lines 163-167: adding the two's complement. */
    method SubAssign(b: BaseUint)
      requires Like(b) && pn.Length > 0
      modifies pn
      ensures Val() == if old(Val()) >= old(b.Val()) then old(Val()) - old(b.Val())
                       else old(Val()) + Modulus() - old(b.Val())
    {
      NumBound(pn[..], pn.Length);
      NumBound(b.pn[..], pn.Length);
      ModSub(Val(), b.Val(), Modulus());
      var c := b.Negated();
      AddAssign(c);
    }

    /** Lines 71-80 of the source file. */
    method MulAssign32(b32: U32)
      modifies pn
      ensures Val() == old(Val()) * b32 % Modulus()
    {
      ghost var x := pn[..];
      var carry: U32 := 0;
      for i := 0 to pn.Length
        invariant forall k :: i <= k < pn.Length ==> pn[k] == x[k]
        invariant Num(pn[..], i) + carry * Weight(i) == Num(x, i) * b32
      {
        ghost var before := pn[..];
        var low, high, n := MulAdd(carry, 0, b32, pn[i]);
        pn[i] := low;
        MulStep(x, b32, before, pn[..], i, carry, n);
        carry := high;
      }
      NumBound(pn[..], pn.Length);
      ModIs(Val(), carry, Modulus(), Value(x) * b32);
    }

    ghost predicate IsZero()
      reads pn
    {
      forall k :: 0 <= k < pn.Length ==> pn[k] == 0
    }

    /** Lines 88-93: add the row d * b, shifted by j limbs; whatever passes the top limb is dropped.  The operand
        may be this very number if that is zero, and it then stays so. */
    method MulRow(d: U32, b: BaseUint, j: nat) returns (ghost carry: nat)
      requires Like(b) && j < pn.Length && (b.pn == pn ==> IsZero())
      modifies pn
      ensures b.pn != pn ==>
                Val() + carry * Modulus() == old(Val()) + d * Weight(j) * Num(b.pn[..], pn.Length - j)
      ensures b.pn == pn ==> IsZero()
    {
      ghost var p, y := pn[..], b.pn[..];
      var c: U32, i := 0, 0;
      while i + j < pn.Length
        invariant 0 <= i <= pn.Length - j
        invariant b.pn == pn ==> IsZero() && c == 0
        invariant b.pn != pn ==> forall k :: i + j <= k < pn.Length ==> pn[k] == p[k]
        invariant b.pn != pn ==>
                    Num(pn[..], i + j) + c * Weight(i + j) == Num(p, i + j) + d * Weight(j) * Num(y, i)
      {
        ghost var before := pn[..];
        var low, high, n := MulAdd(c, pn[i + j], d, b.pn[i]);
        pn[i + j] := low;
        if b.pn != pn { RowStep(p, y, d, j, before, pn[..], i, c, n); }
        c := high;
        i := i + 1;
      }
      carry := c;
    }

    /** Lines 83-96.  The number is cleared before the operand is read, so a number times itself is zero. */
    method MulAssign(b: BaseUint)
      requires Like(b)
      modifies pn
      ensures Val() == if b.pn == pn then 0 else old(Val()) * b.Val() % Modulus()
    {
      var a := new BaseUint.Copy(this);
      ghost var x, y := a.pn[..], b.pn[..];
      ghost var q: nat := 0;
      SetZero();
      for j := 0 to pn.Length
        invariant a.pn[..] == x && (b.pn == pn ==> IsZero())
        invariant b.pn != pn ==> b.pn[..] == y && Val() + q * Modulus() == Num(x, j) * Value(y)
      {
        ghost var p := Val();
        ghost var carry := MulRow(a.pn[j], b, j);
        if b.pn != pn { q := RowDone(x, y, j, p, q, Val(), carry); }
      }
      if b.pn == pn {
        NumZero(pn[..], 0, pn.Length);
      } else {
        NumBound(pn[..], pn.Length);
        ModIs(Val(), q, Modulus(), Value(x) * Value(y));
      }
    }

    method SetZero()
      modifies pn
      ensures forall k :: 0 <= k < pn.Length ==> pn[k] == 0
      ensures Val() == 0
    {
      for i := 0 to pn.Length
        invariant forall k :: 0 <= k < i ==> pn[k] == 0
      {
        pn[i] := 0;
      }
      NumZero(pn[..], 0, pn.Length);
    }

    /** Lines 104-111 of the header. */
    method Assign64(b: nat)
      requires pn.Length >= 2 && b < B * B
      modifies pn
      ensures Val() == b
    {
      SetZero();
      pn[0], pn[1] := b % B, b / B;
      NumZero(pn[..], 2, pn.Length);
      TwoLimbs(pn[..]);
    }

    /** Lines 261-265 of the header. */
    method GetLow64() returns (r: nat)
      requires pn.Length >= 2
      ensures r < B * B && r == Val() % (B * B)
    {
      r := pn[0] + pn[1] * B;
      TwoLimbs(pn[..]);
      NumSplit(pn[..], 2, pn.Length);
      LowTwo(pn[..]);
    }

    /** Lines 37-51. */
    method ShlAssign(shift: nat)
      modifies pn
      ensures Val() == old(Val()) * Pow2(shift) % Modulus()
    {
      var a := new BaseUint.Copy(this);
      ghost var x := pn[..];
      SetZero();
      var k, b := shift / 32, shift % 32;
      for i := 0 to pn.Length
        invariant a.pn[..] == x
        invariant forall m :: 0 <= m < pn.Length ==> pn[m] == ShlLimb(x, k, b, i, m)
      {
        ShlTurn(k, b, i, a.pn[i], x);
      }
      ShlValue(x, pn[..], k, b);
    }

    /** Lines 45-48: limb d of the old number comes in, in two parts. */
    method ShlTurn(k: nat, b: nat, i: nat, d: U32, ghost x: seq<U32>)
      requires b < 32 && i < |x| == pn.Length && d == x[i]
      requires forall m :: 0 <= m < pn.Length ==> pn[m] == ShlLimb(x, k, b, i, m)
      modifies pn
      ensures forall m :: 0 <= m < pn.Length ==> pn[m] == ShlLimb(x, k, b, i + 1, m)
    {
      ShlOr(x, k, b, i);
      if i + k + 1 < pn.Length && b != 0 {
        pn[i + k + 1] := Or32(pn[i + k + 1], Moved(d, b));
      }
      if i + k < pn.Length {
        pn[i + k] := Or32(pn[i + k], Kept(d, b));
      }
    }

    /** Lines 54-68. */
    method ShrAssign(shift: nat)
      modifies pn
      ensures Val() == old(Val()) / Pow2(shift)
    {
      var a := new BaseUint.Copy(this);
      ghost var x := pn[..];
      SetZero();
      var k, b := shift / 32, shift % 32;
      for i := 0 to pn.Length
        invariant a.pn[..] == x
        invariant forall m :: 0 <= m < pn.Length ==> pn[m] == ShrLimb(x, k, b, i, m)
      {
        ShrTurn(k, b, i, a.pn[i], x);
      }
      ShrValue(x, pn[..], k, b);
    }

    /** Lines 62-65: limb d of the old number comes in, in two parts. */
    method ShrTurn(k: nat, b: nat, i: nat, d: U32, ghost x: seq<U32>)
      requires b < 32 && i < |x| == pn.Length && d == x[i]
      requires forall m :: 0 <= m < pn.Length ==> pn[m] == ShrLimb(x, k, b, i, m)
      modifies pn
      ensures forall m :: 0 <= m < pn.Length ==> pn[m] == ShrLimb(x, k, b, i + 1, m)
    {
      if i >= k { ShrOr(x, k, b, i); }
      if i - k - 1 >= 0 && b != 0 {
        pn[i - k - 1] := Or32(pn[i - k - 1], Below(d, b));
      }
      if i - k >= 0 {
        pn[i - k] := Or32(pn[i - k], Down(d, b));
      }
    }

    /** Lines 132-138. */
    method CompareTo(b: BaseUint) returns (r: int)
      requires Like(b)
      ensures r == if Val() < b.Val() then -1 else if Val() > b.Val() then 1 else 0
    {
      ghost var x, y := pn[..], b.pn[..];
      var i := pn.Length - 1;
      while i >= 0
        invariant -1 <= i < pn.Length
        invariant forall k :: i < k < pn.Length ==> pn[k] == b.pn[k]
      {
        if pn[i] < b.pn[i] {
          NumOrder(x, y, i, |x|);
          return -1;
        }
        if pn[i] > b.pn[i] {
          NumOrder(y, x, i, |x|);
          return 1;
        }
        i := i - 1;
      }
      assert x == y;
      return 0;
    }

    /** Lines 192-204. */
    method Bits() returns (r: nat)
      ensures r == BitLen(Val())
    {
      ghost var x := pn[..];
      var pos := pn.Length - 1;
      while pos >= 0
        invariant -1 <= pos < pn.Length
        invariant forall k :: pos < k < pn.Length ==> pn[k] == 0
      {
        if pn[pos] != 0 {
          var bits := 31;
          Pow32();
          while bits > 0
            invariant 0 <= bits <= 31 && pn[pos] < Pow2(bits + 1)
          {
            BitBounds(pn[pos], bits);
            if BitOf(pn[pos], bits) {
              TopBit(x, pos, bits);
              return 32 * pos + bits + 1;
            }
            bits := bits - 1;
          }
          TopBit(x, pos, 0);
          return 32 * pos + 1;
        }
        pos := pos - 1;
      }
      NumZero(x, 0, |x|);
      return 0;
    }

    /** The quotient so far, the remainder still to divide and the divisor shifted by `shift`. */
    ghost predicate Dividing(div: BaseUint, num: BaseUint, n: nat, d: nat, shift: int)
      reads pn, div.pn, num.pn
    {
      && Like(div) && Like(num) && pn.Length > 0 && pn != div.pn && pn != num.pn && div.pn != num.pn
      && -1 <= shift < 32 * pn.Length
      && Val() * d + num.Val() == n
      && num.Val() < d * Pow2(shift + 1)
      && (shift >= 0 ==> div.Val() == d * Pow2(shift))
      && LowZero(pn[..], shift + 1)
    }

    /** Lines 113-116: subtract and set the bit where the shifted divisor fits. */
    method DivTurn(div: BaseUint, num: BaseUint, shift: nat, ghost n: nat, ghost d: nat)
      requires Dividing(div, num, n, d, shift)
      modifies pn, num.pn
      ensures Val() * d + num.Val() == n && num.Val() < d * Pow2(shift) && LowZero(pn[..], shift)
    {
      DivStep(Val(), d, num.Val(), n, shift, num.Val() >= div.Val());
      var cmp := num.CompareTo(div);
      if cmp >= 0 {
        num.SubAssign(div);
        SetQuotientBit(shift);
      } else {
        LowZeroBelow(pn[..], shift);
      }
    }

    /** Line 115. */
    method SetQuotientBit(shift: nat)
      requires shift < 32 * pn.Length && LowZero(pn[..], shift + 1)
      modifies pn
      ensures Val() == old(Val()) + Pow2(shift) && LowZero(pn[..], shift)
    {
      ghost var x := pn[..];
      Bit32(shift % 32);
      pn[shift / 32] := Or32(pn[shift / 32], Pow2(shift % 32));
      SetBit(x, pn[..], shift);
    }

    /** Lines 112-119. */
    method DivLoop(div: BaseUint, num: BaseUint, start: nat, ghost n: nat, ghost d: nat)
      requires Dividing(div, num, n, d, start) && d > 0
      modifies pn, div.pn, num.pn
      ensures Val() == n / d && num.Val() == n % d
    {
      var shift: int := start;
      while shift >= 0
        invariant Dividing(div, num, n, d, shift)
      {
        DivTurn(div, num, shift, n, d);
        if shift > 0 { HalvesEvenly(d, shift); }
        div.ShrAssign(1);
        shift := shift - 1;
      }
      ModIs(num.Val(), Val(), d, n);
    }

    /** Lines 110-121. */
    method DivAligned(div: BaseUint, num: BaseUint, shift: nat, ghost n: nat, ghost d: nat)
      requires Like(div) && Like(num) && pn.Length > 0 && pn != div.pn && pn != num.pn && div.pn != num.pn
      requires n == num.Val() && d == div.Val() > 0 && forall k :: 0 <= k < pn.Length ==> pn[k] == 0
      requires Val() == 0 && BitLen(d) <= BitLen(n) && shift == BitLen(n) - BitLen(d)
      modifies pn, div.pn, num.pn
      ensures Val() == n / d && num.Val() == n % d
    {
      NumBound(num.pn[..], pn.Length);
      Aligned(n, d, pn.Length);
      LowZeroAll(pn[..], shift + 1);
      div.ShlAssign(shift);
      assert pn[..] == old(pn[..]) && num.pn[..] == old(num.pn[..]);
      NothingYet(Val(), d, n);
      DivLoop(div, num, shift, n, d);
    }

    /** Lines 99-122: shift and subtract; a zero divisor is reported, with the number already cleared. */
    method DivAssign(b: BaseUint) returns (r: Result)
      requires Like(b) && pn.Length > 0
      modifies pn
      ensures if old(b.Val()) == 0 then r == DivisionByZero && Val() == 0
              else r == Ok && Val() == old(Val()) / old(b.Val())
    {
      var div := new BaseUint.Copy(b);
      var num := new BaseUint.Copy(this);
      ghost var d, n := div.Val(), num.Val();
      SetZero();
      var numBits := num.Bits();
      var divBits := div.Bits();
      BitLenBounds(d);
      if divBits == 0 {
        return DivisionByZero;
      }
      if divBits > numBits {
        Shorter(n, d);
        return Ok;
      }
      DivAligned(div, num, numBits - divBits, n, d);
      r := Ok;
    }
  }
}
