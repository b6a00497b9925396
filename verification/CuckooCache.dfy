/** The packed collection flags and the cache object of src/cuckoocache.h, carried out in place. */
module CuckooCache {
  import opened Basics
  import opened Cuckoo
  import opened PackedBits

  class BitFlags {
    var mem: array<bv8>

    ghost function Bits(): (bits: seq<bool>)
      reads this, mem
      ensures |bits| == 8 * mem.Length
    {
      BitsOf(mem[..])
    }

    constructor (size: U32)
      ensures fresh(mem) && mem.Length == FlagBytes(size) && forall i :: 0 <= i < |Bits()| ==> Bits()[i]
    {
      var bytes := FlagBytes(size);
      var m := new bv8[bytes];
      for i := 0 to bytes
        invariant forall j :: 0 <= j < i ==> m[j] == 0xFF
      {
        m[i] := 0xFF;
      }
      forall s | 0 <= s < 8 * bytes ensures BitsOf(m[..])[s] {
        FullByte(s % 8);
      }
      mem := m;
    }

    method Setup(size: U32)
      modifies this
      ensures fresh(mem) && mem.Length == FlagBytes(size) && forall i :: 0 <= i < |Bits()| ==> Bits()[i]
    {
      var d := new BitFlags(size);
      mem := d.mem;
      assert Bits() == d.Bits();
    }

    method BitSet(s: U32)
      requires s < 8 * mem.Length
      modifies mem
      ensures Bits() == old(Bits())[s := true]
    {
      mem[s / 8] := mem[s / 8] | Mask(s % 8);
      BitWritten(old(mem[..]), mem[..], s, true);
    }

    method BitUnset(s: U32)
      requires s < 8 * mem.Length
      modifies mem
      ensures Bits() == old(Bits())[s := false]
    {
      mem[s / 8] := mem[s / 8] & !Mask(s % 8);
      BitWritten(old(mem[..]), mem[..], s, false);
    }

    function BitIsSet(s: U32): (b: bool)
      requires s < 8 * mem.Length
      reads this, mem
      ensures b == Bits()[s]
    {
      Test(mem[s / 8], s % 8)
    }
  }

  // ---------------------------------------------------------------- the cache object

  class Cache {
    const hash: (int, Element) -> U32
    var table: array<Element>
    var size: U32
    var collectionFlags: BitFlags
    var epochFlags: array<bool>
    var counter: nat
    var epochSize: nat
    var depthLimit: nat

    ghost predicate Valid()
      reads this, collectionFlags
    {
      && Cfg().Ok() && epochSize == Cfg().EpochSize()
      && table.Length == epochFlags.Length == size
      && size <= 8 * collectionFlags.mem.Length
      && (table as object) != epochFlags && (table as object) != collectionFlags.mem
      && (epochFlags as object) != collectionFlags.mem
    }

    ghost function Cfg(): Config
      reads this
    {
      Config(size, hash, depthLimit)
    }

    ghost function Value(): (s: State)
      requires Valid()
      reads this, table, epochFlags, collectionFlags, collectionFlags.mem
      ensures Shape(Cfg(), s)
    {
      State(table[..], collectionFlags.Bits()[..size], epochFlags[..], counter)
    }

    constructor (hash: (int, Element) -> U32)
      ensures size == 0 && this.hash == hash && fresh(collectionFlags)
    {
      this.hash := hash;
      table := new Element[0];
      size := 0;
      collectionFlags := new BitFlags(0);
      epochFlags := new bool[0];
      counter, epochSize, depthLimit := 0, 0, 0;
    }

    /** Lines 339-352; the depth limit, a rounded logarithm, is given.  Beyond 2^32 - 8 the flags miss the last slots. */
    method Setup(newSize: U32, depth: nat) returns (r: U32)
      requires size == 0
      modifies this, collectionFlags
      ensures Cfg() == Config(r, hash, depth) && r == Max(2, newSize)
      ensures Valid() <==> newSize <= 0xFFFF_FFF8
      ensures Valid() ==> Value() == Cuckoo.Setup(Cfg())
      ensures fresh(table) && fresh(epochFlags) && collectionFlags == old(collectionFlags) && fresh(collectionFlags.mem)
    {
      depthLimit := depth;
      size := Max(2, newSize);
      table := new Element[size](_ => NONE);
      collectionFlags.Setup(size);
      ghost var bits := collectionFlags.Bits();
      epochFlags := new bool[size](_ => false);
      epochSize := Max(1, (45 * size) % 0x1_0000_0000 / 100);
      counter := epochSize;
      FlagsCover(size);
      r := size;
      ghost var s := Cuckoo.Setup(Cfg());
      if newSize <= 0xFFFF_FFF8 {
        assert collectionFlags.Bits() == bits && bits[..size] == s.garbage;
        assert table[..] == s.table && epochFlags[..] == s.recent;
      }
    }

    method AllowErase(n: U32)
      requires Valid() && n < size
      modifies collectionFlags.mem
      ensures Valid() && Value() == old(Value()).(garbage := old(Value()).garbage[n := true])
    {
      collectionFlags.BitSet(n);
      assert collectionFlags.Bits()[..size] == old(Value()).garbage[n := true];
      assert table[..] == old(table[..]) && epochFlags[..] == old(epochFlags[..]);
    }

    method PleaseKeep(n: U32)
      requires Valid() && n < size
      modifies collectionFlags.mem
      ensures Valid() && Value() == old(Value()).(garbage := old(Value()).garbage[n := false])
    {
      collectionFlags.BitUnset(n);
      assert collectionFlags.Bits()[..size] == old(Value()).garbage[n := false];
      assert table[..] == old(table[..]) && epochFlags[..] == old(epochFlags[..]);
    }

    /** Lines 296-299: the scan. */
    method CountEpoch() returns (n: nat)
      requires Valid()
      ensures n == Epoch(Value())
    {
      n := 0;
      ghost var s := Value();
      for i := 0 to size
        invariant n == Live(s.recent, s.garbage, i)
      {
        if epochFlags[i] && !collectionFlags.BitIsSet(i) {
          n := n + 1;
        }
      }
    }

    /** Lines 305-309: the current epoch becomes the old one, the old one garbage. */
    method AgeEpoch()
      requires Valid()
      modifies epochFlags, collectionFlags.mem
      ensures Valid() && Value() == old(Value()).(garbage := Aged(old(Value())), recent := seq(size, _ => false))
    {
      ghost var s := Value();
      for i := 0 to size
        invariant Valid()
        invariant forall j :: 0 <= j < size ==> Value().recent[j] == (s.recent[j] && i <= j)
        invariant forall j :: 0 <= j < size ==> Value().garbage[j] == (s.garbage[j] || (j < i && !s.recent[j]))
      {
        if epochFlags[i] {
          ghost var before := Value();
          epochFlags[i] := false;
          assert Value() == before.(recent := before.recent[i := false]);
        } else {
          AllowErase(i);
        }
      }
      assert Value().garbage == Aged(s);
      assert Value().recent == seq(size, _ => false);
    }

    method EpochCheck()
      requires Valid()
      modifies this`counter, epochFlags, collectionFlags.mem
      ensures Valid() && Value() == Cuckoo.EpochCheck(Cfg(), old(Value()))
    {
      if counter != 0 {
        counter := counter - 1;
        return;
      }
      var unused := CountEpoch();
      if unused >= epochSize {
        AgeEpoch();
        counter := epochSize;
      } else {
        counter := Max(1, Max(epochSize / 16, epochSize - unused));
      }
    }

    method ComputeHashes(e: Element) returns (locs: seq<U32>)
      requires Valid()
      ensures locs == Locs(Cfg(), e)
    {
      var n := size;
      locs := seq<U32>(8, k requires 0 <= k < 8 => Slot(hash(k, e), n));
    }

    /** Lines 400-405 and 472-477. */
    method Probe(e: Element, locs: seq<U32>) returns (k: nat)
      requires Valid() && locs == Locs(Cfg(), e)
      ensures k == Find(Cfg(), Value(), e)
    {
      ghost var s := Value();
      k := 0;
      while k < 8 && table[locs[k]] != e
        invariant k <= 8 && forall j :: 0 <= j < k ==> table[locs[j]] != e
      {
        k := k + 1;
      }
      FirstIs(locs, l => 0 <= l < |s.table| && s.table[l] == e, k);
    }

    /** Lines 409-414. */
    method ProbeGarbage(ghost e: Element, locs: seq<U32>) returns (k: nat)
      requires Valid() && locs == Locs(Cfg(), e)
      ensures k == Room(Cfg(), Value(), e)
    {
      ghost var s := Value();
      k := 0;
      while k < 8 && !collectionFlags.BitIsSet(locs[k])
        invariant k <= 8 && forall j :: 0 <= j < k ==> !s.garbage[locs[j]]
      {
        k := k + 1;
      }
      FirstIs(locs, l => 0 <= l < |s.garbage| && s.garbage[l], k);
    }

    method Store(l: U32, e: Element, recent: bool)
      requires Valid() && l < size
      modifies table, epochFlags, collectionFlags.mem
      ensures Valid() && Value() == Put(old(Value()), l, e, recent)
    {
      ghost var s := Value();
      table[l] := e;
      assert Value() == s.(table := s.table[l := e]);
      PleaseKeep(l);
      epochFlags[l] := recent;
      assert Value().recent == s.recent[l := recent];
    }

    /** Lines 430-435. */
    method Exchange(l: U32, e: Element, recent: bool) returns (e': Element, recent': bool)
      requires Valid() && l < size
      modifies table, epochFlags
      ensures Valid() && Value() == Swap(old(Value()), l, e, recent)
      ensures e' == old(Value()).table[l] && recent' == old(Value()).recent[l]
    {
      ghost var s := Value();
      e' := table[l];
      table[l] := e;
      assert Value() == s.(table := s.table[l := e]);
      recent' := epochFlags[l];
      epochFlags[l] := recent;
      assert Value().recent == s.recent[l := recent];
    }

    /** The loop still has to do what makes the outcome of the whole insert `goal`. */
    ghost predicate Kicking(x: Element, last: U32, recent: bool, depth: nat, goal: (State, Loss))
      requires Valid()
      reads this, table, epochFlags, collectionFlags, collectionFlags.mem
    {
      forall s :: s == Value() ==> Kick(Cfg(), s, x, last, recent, depth) == goal
    }

    /** Lines 407-438: one turn of the loop. */
    method KickTurn(x: Element, last: U32, recent: bool, ghost depth: nat, ghost goal: (State, Loss))
      returns (done: bool, x': Element, last': U32, recent': bool)
      requires Valid() && depth > 0 && Kicking(x, last, recent, depth, goal)
      modifies table, epochFlags, collectionFlags.mem
      ensures Valid()
      ensures if done then Value() == goal.0 else Kicking(x', last', recent', depth - 1, goal)
    {
      KickUnfolds(Cfg(), Value(), x, last, recent, depth);
      x', last', recent' := x, last, recent;
      var locs := ComputeHashes(x);
      var k := ProbeGarbage(x, locs);
      done := k < 8;
      if done {
        Store(locs[k], x, recent);
      } else {
        last' := NextLoc(locs, last);
        x', recent' := Exchange(last', x, recent);
      }
    }

    /** Lines 406-439. */
    method KickLoop(e: Element, ghost goal: (State, Loss))
      requires Valid() && Kicking(e, INVALID, true, depthLimit, goal)
      modifies table, epochFlags, collectionFlags.mem
      ensures Valid() && Value() == goal.0
    {
      var done, x, last, recent, left := false, e, INVALID, true, depthLimit;
      while !done && left > 0
        invariant Valid() && if done then Value() == goal.0 else Kicking(x, last, recent, left, goal)
      {
        done, x, last, recent := KickTurn(x, last, recent, left, goal);
        left := left - 1;
      }
      assert done || Kick(Cfg(), Value(), x, last, recent, 0) == goal;
    }

    method Insert(e: Element)
      requires Valid()
      modifies this`counter, table, epochFlags, collectionFlags.mem
      ensures Valid() && Value() == Cuckoo.Insert(Cfg(), old(Value()), e).0
    {
      EpochCheck();
      var locs := ComputeHashes(e);
      var k := Probe(e, locs);
      if k < 8 {
        Store(locs[k], e, true);
      } else {
        KickLoop(e, Kick(Cfg(), Value(), e, INVALID, true, depthLimit));
      }
    }

    method Contains(e: Element, erase: bool) returns (found: bool)
      requires Valid()
      modifies collectionFlags.mem
      ensures Valid() && (Value(), found) == Cuckoo.Contains(Cfg(), old(Value()), e, erase)
    {
      var locs := ComputeHashes(e);
      var k := Probe(e, locs);
      if k < 8 && erase {
        AllowErase(locs[k]);
      }
      found := k < 8;
    }
  }
}
