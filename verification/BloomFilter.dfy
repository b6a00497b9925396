/** The filters of src/bloom.cpp in place, over a packed bit array. */
module BloomFilter {
  import opened Bloom
  import opened PackedBits

  class CBloomFilter {
    const h: Murmur
    const vData: array<bv8>
    var isFull: bool
    var isEmpty: bool
    const nHashFuncs: nat
    var nTweak: nat

    ghost predicate Valid() { vData.Length > 0 }

    ghost function Value(): (f: Filter)
      reads this, vData
      ensures |f.bits| == 8 * vData.Length
    {
      Filter(BitsOf(vData[..]), isFull, isEmpty, nHashFuncs, nTweak)
    }

    /** The size and the number of hash functions, computed in floating point, are given. */
    constructor (h: Murmur, size: nat, nHashFuncs: nat, nTweak: nat, isEmpty: bool)
      ensures this.h == h && vData.Length == size && fresh(vData)
      ensures Value() == Filter(seq(8 * size, _ => false), false, isEmpty, nHashFuncs, nTweak)
    {
      this.h, this.nHashFuncs, this.nTweak, this.isFull, this.isEmpty := h, nHashFuncs, nTweak, false, isEmpty;
      vData := new bv8[size](_ => 0);
      new;
      AllClear(vData[..]);
    }

    /** Line 73. */
    function HashOf(i: nat, k: Key): (n: nat)
      requires Valid()
      reads this, vData
      ensures n == Index(h, Value(), i, k) < 8 * vData.Length
    {
      h((i * 0xFBA4C795 + nTweak) % 0x1_0000_0000, k) % (vData.Length * 8)
    }

    method Insert(k: Key)
      requires Valid()
      modifies this`isEmpty, vData
      ensures Value() == Bloom.Insert(h, old(Value()), k)
    {
      if isFull { return; }
      SetBitsOf(k);
      isEmpty := false;
    }

    /** Lines 80-85. */
    method SetBitsOf(k: Key)
      requires Valid()
      modifies vData
      ensures Value() == old(Value()).(bits := SetBits(h, old(Value()), k, nHashFuncs))
    {
      ghost var f := Value();
      for i := 0 to nHashFuncs
        invariant Value() == f.(bits := SetBits(h, f, k, i))
      {
        var nIndex := HashOf(i, k);
        IndexSame(h, f, Value(), i, k);
        SetBitsNext(h, f, k, i, nIndex);
        SetBit(nIndex);
      }
    }

    /** Line 84. */
    method SetBit(nIndex: nat)
      requires nIndex < 8 * vData.Length
      modifies vData
      ensures Value() == old(Value()).(bits := old(Value()).bits[nIndex := true])
    {
      vData[nIndex / 8] := vData[nIndex / 8] | Mask(nIndex % 8);
      BitWritten(old(vData[..]), vData[..], nIndex, true);
    }

    method Contains(k: Key) returns (r: bool)
      requires Valid()
      ensures r == Bloom.Contains(h, Value(), k)
    {
      if isFull { return true; }
      if isEmpty { return false; }
      ghost var f := Value();
      for i := 0 to nHashFuncs
        invariant forall j :: 0 <= j < i ==> f.bits[Index(h, f, j, k)]
      {
        var nIndex := HashOf(i, k);
        assert f.bits[nIndex] == Test(vData[nIndex / 8], nIndex % 8);
        if !Test(vData[nIndex / 8], nIndex % 8) {
          return false;
        }
      }
      r := true;
    }

    method Clear()
      modifies this`isFull, this`isEmpty, vData
      ensures Value() == Bloom.Clear(old(Value()))
    {
      for i := 0 to vData.Length
        invariant forall j :: 0 <= j < i ==> vData[j] == 0
      {
        vData[i] := 0;
      }
      AllClear(vData[..]);
      isFull, isEmpty := false, true;
    }

    method Reset(nNewTweak: nat)
      modifies this`isFull, this`isEmpty, this`nTweak, vData
      ensures Value() == Bloom.Reset(old(Value()), nNewTweak)
    {
      Clear();
      nTweak := nNewTweak;
    }

    method UpdateEmptyFull()
      modifies this`isFull, this`isEmpty
      ensures Value() == Bloom.UpdateEmptyFull(old(Value()))
    {
      var full, empty := true, true;
      ghost var bits := BitsOf(vData[..]);
      for i := 0 to vData.Length
        invariant full <==> AllAre(bits[..8 * i], true)
        invariant empty <==> AllAre(bits[..8 * i], false)
      {
        OneByte(vData[..], i);
        full := full && vData[i] == 0xff;
        empty := empty && vData[i] == 0;
      }
      assert bits[..8 * vData.Length] == bits;
      isFull, isEmpty := full, empty;
    }
  }

  /** Two filters of twice the size, cleared in turn. */
  class CRollingBloomFilter {
    const b1: CBloomFilter
    const b2: CBloomFilter
    const nBloomSize: nat
    var nInsertions: nat

    ghost predicate Valid()
    {
      b1.Valid() && b2.Valid() && b1 != b2 && b1.vData != b2.vData && b1.h == b2.h
    }

    ghost function Value(): (r: Rolling)
      requires Valid()
      reads this, b1, b2, b1.vData, b2.vData
      ensures r.Ok()
    {
      Rolling(b1.Value(), b2.Value(), nBloomSize, nInsertions)
    }

    /** Lines 234-245; the tweak is random. */
    constructor (h: Murmur, nElements: nat, size: nat, nHashFuncs: nat, tweak: nat)
      requires size > 0
      ensures Valid() && fresh(b1) && fresh(b2) && fresh(b1.vData) && fresh(b2.vData) && b1.h == h
      ensures nBloomSize == 2 * nElements && Value() == RollReset(Value(), tweak)
    {
      b1 := new CBloomFilter(h, size, nHashFuncs, 0, true);
      b2 := new CBloomFilter(h, size, nHashFuncs, 0, true);
      nBloomSize := nElements * 2;
      nInsertions := 0;
      new;
      Reset(tweak);
    }

    method Insert(k: Key)
      requires Valid()
      modifies this`nInsertions, b1, b2, b1.vData, b2.vData
      ensures Value() == RollInsert(b1.h, old(Value()), k)
    {
      if nInsertions == 0 {
        b1.Clear();
      } else if nInsertions == nBloomSize / 2 {
        b2.Clear();
      }
      b1.Insert(k);
      b2.Insert(k);
      nInsertions := nInsertions + 1;
      if nInsertions == nBloomSize {
        nInsertions := 0;
      }
    }

    method Contains(k: Key) returns (r: bool)
      requires Valid()
      ensures r == RollContains(b1.h, Value(), k)
    {
      if nInsertions < nBloomSize / 2 {
        r := b2.Contains(k);
      } else {
        r := b1.Contains(k);
      }
    }

    method Reset(nNewTweak: nat)
      requires Valid()
      modifies this`nInsertions, b1, b2, b1.vData, b2.vData
      ensures Value() == RollReset(old(Value()), nNewTweak)
    {
      b1.Reset(nNewTweak);
      b2.Reset(nNewTweak);
      nInsertions := 0;
    }
  }

  lemma IndexSame(h: Murmur, f: Filter, g: Filter, i: nat, k: Key)
    requires f.Ok() && |f.bits| == |g.bits| && f.nTweak == g.nTweak
    ensures Index(h, f, i, k) == Index(h, g, i, k)
  {
  }

  lemma SetBitsNext(h: Murmur, f: Filter, k: Key, n: nat, j: nat)
    requires f.Ok() && j == Index(h, f, n, k)
    ensures SetBits(h, f, k, n + 1) == SetBits(h, f, k, n)[j := true]
  {
  }

  lemma AllClear(mem: seq<bv8>)
    requires forall i :: 0 <= i < |mem| ==> mem[i] == 0
    ensures BitsOf(mem) == seq(8 * |mem|, _ => false)
  {
    forall s | 0 <= s < 8 * |mem| ensures !BitsOf(mem)[s] { FullOrEmpty(mem[s / 8]); }
  }

  /** The next byte decides about the next eight bits. */
  lemma OneByte(mem: seq<bv8>, i: nat)
    requires i < |mem|
    ensures AllAre(BitsOf(mem)[..8 * (i + 1)], true) <==> AllAre(BitsOf(mem)[..8 * i], true) && mem[i] == 0xFF
    ensures AllAre(BitsOf(mem)[..8 * (i + 1)], false) <==> AllAre(BitsOf(mem)[..8 * i], false) && mem[i] == 0
  {
    FullOrEmpty(mem[i]);
    var bits := BitsOf(mem);
    forall j | 0 <= j < 8 ensures bits[8 * i + j] == Test(mem[i], j) { assert (8 * i + j) / 8 == i; }
    OneByteAll(bits, mem, i, true);
    OneByteAll(bits, mem, i, false);
  }

  lemma OneByteAll(bits: seq<bool>, mem: seq<bv8>, i: nat, b: bool)
    requires 8 * (i + 1) <= |bits| && i < |mem| && forall j :: 0 <= j < 8 ==> bits[8 * i + j] == Test(mem[i], j)
    ensures AllAre(bits[..8 * (i + 1)], b) <==> AllAre(bits[..8 * i], b) && forall j :: 0 <= j < 8 ==> Test(mem[i], j) == b
  {
    var old', new' := bits[..8 * i], bits[..8 * (i + 1)];
    assert forall s :: 0 <= s < |old'| ==> old'[s] == new'[s];
    if AllAre(new', b) {
      forall j | 0 <= j < 8 ensures Test(mem[i], j) == b { assert new'[8 * i + j] == bits[8 * i + j]; }
    }
    if AllAre(old', b) && forall j :: 0 <= j < 8 ==> Test(mem[i], j) == b {
      forall s | 0 <= s < |new'| ensures new'[s] == b {
        if s >= 8 * i { assert bits[8 * i + (s - 8 * i)] == Test(mem[i], s - 8 * i); }
      }
    }
  }
}
