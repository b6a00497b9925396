/**
 * The Bloom filter (BIP 37) and the rolling filter of src/bloom.cpp on values: a bit array, the two shortcut flags
 * and, for the rolling one, two filters cleared in turn.
 */
module Bloom {
  type Key = seq<nat>

  datatype Filter = Filter(bits: seq<bool>, isFull: bool, isEmpty: bool, nHashFuncs: nat, nTweak: nat) {
    /** Hashing needs a bit to fall on. */
    predicate Ok() { |bits| > 0 }
  }

  /** MurmurHash3, uninterpreted. */
  type Murmur = (nat, Key) -> nat

  function Index(h: Murmur, f: Filter, i: nat, k: Key): (n: nat)
    requires f.Ok()
    ensures n < |f.bits|
  {
    h((i * 0xFBA4C795 + f.nTweak) % 0x1_0000_0000, k) % |f.bits|
  }

  /** The bits of the first n hashes of k set. */
  function SetBits(h: Murmur, f: Filter, k: Key, n: nat): (r: seq<bool>)
    requires f.Ok()
    ensures |r| == |f.bits|
  {
    if n == 0 then f.bits else SetBits(h, f, k, n - 1)[Index(h, f, n - 1, k) := true]
  }

  /** Lines 76-87. */
  function Insert(h: Murmur, f: Filter, k: Key): (r: Filter)
    requires f.Ok()
    ensures r.Ok()
  {
    if f.isFull then f else f.(bits := SetBits(h, f, k, f.nHashFuncs), isEmpty := false)
  }

  /** The answer of the bits alone. */
  predicate Plain(h: Murmur, f: Filter, k: Key)
    requires f.Ok()
  {
    forall i :: 0 <= i < f.nHashFuncs ==> f.bits[Index(h, f, i, k)]
  }

  /** Lines 103-117. */
  predicate Contains(h: Murmur, f: Filter, k: Key)
    requires f.Ok()
  {
    f.isFull || (!f.isEmpty && Plain(h, f, k))
  }

  /** Lines 133-138. */
  function Clear(f: Filter): (r: Filter)
    ensures |r.bits| == |f.bits|
  {
    f.(bits := seq(|f.bits|, _ => false), isFull := false, isEmpty := true)
  }

  function Reset(f: Filter, tweak: nat): Filter { Clear(f).(nTweak := tweak) }

  predicate AllAre(bits: seq<bool>, b: bool) { forall i :: 0 <= i < |bits| ==> bits[i] == b }

  /** Lines 221-232. */
  function UpdateEmptyFull(f: Filter): Filter {
    f.(isFull := AllAre(f.bits, true), isEmpty := AllAre(f.bits, false))
  }

  // ---------------------------------------------------------------- the plain filter

  /** The flags claim no more than the bits bear out. */
  predicate Honest(f: Filter) {
    (f.isFull ==> AllAre(f.bits, true)) && (f.isEmpty ==> AllAre(f.bits, false))
  }

  lemma {:induction false} SetBitsOnlySet(h: Murmur, f: Filter, k: Key, n: nat)
    requires f.Ok()
    ensures forall j :: 0 <= j < |f.bits| && f.bits[j] ==> SetBits(h, f, k, n)[j]
    ensures forall i :: 0 <= i < n ==> SetBits(h, f, k, n)[Index(h, f, i, k)]
  {
    if n > 0 { SetBitsOnlySet(h, f, k, n - 1); }
  }

  /** Inserting adds its key and takes none away. */
  lemma InsertKeeps(h: Murmur, f: Filter, k: Key, x: Key)
    requires f.Ok() && Honest(f)
    ensures var r := Insert(h, f, k);
            && Honest(r) && Contains(h, r, k) && (Contains(h, f, x) ==> Contains(h, r, x))
            && (f.isFull ==> r == f)
  {
    SetBitsOnlySet(h, f, k, f.nHashFuncs);
    var r := Insert(h, f, k);
    if !f.isFull {
      forall i | 0 <= i < r.nHashFuncs ensures r.bits[Index(h, r, i, k)] { assert Index(h, r, i, k) == Index(h, f, i, k); }
      if Contains(h, f, x) {
        forall i | 0 <= i < r.nHashFuncs ensures r.bits[Index(h, r, i, x)] { assert Index(h, r, i, x) == Index(h, f, i, x); }
      }
    }
  }

  /** The shortcuts answer as the bits do, except for an empty filter without hash functions. */
  lemma ShortcutsExact(h: Murmur, f: Filter, k: Key)
    requires f.Ok() && Honest(f)
    ensures Contains(h, f, k) == Plain(h, f, k) <==> f.isFull || !f.isEmpty || f.nHashFuncs > 0
  {
    if f.nHashFuncs > 0 { assert f.bits[Index(h, f, 0, k)] == f.bits[Index(h, f, 0, k)]; }
  }

  /** Recomputing the flags keeps every answer of the bits, given at least one hash function. */
  lemma UpdateExact(h: Murmur, f: Filter, k: Key)
    requires f.Ok()
    ensures var u := UpdateEmptyFull(f);
            Honest(u) && (Contains(h, u, k) == Plain(h, f, k) <==> f.nHashFuncs > 0 || !AllAre(f.bits, false))
  {
    var u := UpdateEmptyFull(f);
    ShortcutsExact(h, u, k);
    assert forall i: nat :: Index(h, u, i, k) == Index(h, f, i, k);
    assert f.bits[0] == u.bits[0];
  }

  /** The case that differs: no hash functions, so the bits accept everything and the flag nothing. */
  lemma UpdateDiffers(h: Murmur, k: Key)
    ensures var f := Filter([false, false, false, false, false, false, false, false], false, false, 0, 0);
            Plain(h, f, k) && Contains(h, f, k) && !Contains(h, UpdateEmptyFull(f), k)
  {
    var f := Filter([false, false, false, false, false, false, false, false], false, false, 0, 0);
    assert !f.bits[0];
  }

  // ---------------------------------------------------------------- the rolling filter

  datatype Rolling = Rolling(b1: Filter, b2: Filter, nBloomSize: nat, nInsertions: nat) {
    predicate Ok() { b1.Ok() && b2.Ok() }
  }

  /** Lines 247-259. */
  function RollInsert(h: Murmur, r: Rolling, k: Key): (s: Rolling)
    requires r.Ok()
    ensures s.Ok()
  {
    var b1 := if r.nInsertions == 0 then Clear(r.b1) else r.b1;
    var b2 := if r.nInsertions != 0 && r.nInsertions == r.nBloomSize / 2 then Clear(r.b2) else r.b2;
    var n := r.nInsertions + 1;
    Rolling(Insert(h, b1, k), Insert(h, b2, k), r.nBloomSize, if n == r.nBloomSize then 0 else n)
  }

  /** Lines 267-273. */
  predicate RollContains(h: Murmur, r: Rolling, k: Key)
    requires r.Ok()
  {
    if r.nInsertions < r.nBloomSize / 2 then Contains(h, r.b2, k) else Contains(h, r.b1, k)
  }

  /** Lines 281-287. */
  function RollReset(r: Rolling, tweak: nat): Rolling {
    Rolling(Reset(r.b1, tweak), Reset(r.b2, tweak), r.nBloomSize, 0)
  }

  function Run(h: Murmur, r: Rolling, keys: seq<Key>): (s: Rolling)
    requires r.Ok()
    ensures s.Ok()
  {
    if keys == [] then r else RollInsert(h, Run(h, r, keys[..|keys| - 1]), keys[|keys| - 1])
  }

  /** The filter answers for every key from position c on. */
  predicate Knows(h: Murmur, f: Filter, keys: seq<Key>, c: nat)
    requires f.Ok()
  {
    Honest(f) && forall i :: c <= i < |keys| ==> Contains(h, f, keys[i])
  }

  lemma KnowsMore(h: Murmur, f: Filter, keys: seq<Key>, c: nat, k: Key)
    requires f.Ok() && Knows(h, f, keys, c)
    ensures Knows(h, Insert(h, f, k), keys + [k], c)
  {
    InsertKeeps(h, f, k, k);
    forall i | c <= i < |keys| + 1 ensures Contains(h, Insert(h, f, k), (keys + [k])[i]) {
      if i < |keys| { InsertKeeps(h, f, k, keys[i]); }
    }
  }

  lemma ClearKnows(h: Murmur, f: Filter, keys: seq<Key>)
    requires f.Ok()
    ensures Clear(f).Ok() && Knows(h, Clear(f), keys, |keys|)
  {
  }

  /** After n insertions: the counter and the positions where the two filters were last cleared. */
  datatype Phase = Phase(counter: nat, start1: nat, start2: nat)

  function PhaseOf(n: nat, half: nat): Phase {
    if n == 0 then Phase(0, 0, 0)
    else
      var p := PhaseOf(n - 1, half);
      Phase(if p.counter + 1 == 2 * half then 0 else p.counter + 1,
            if p.counter == 0 then n - 1 else p.start1,
            if p.counter != 0 && p.counter == half then n - 1 else p.start2)
  }

  /** The clears are staggered: the filter that answers was cleared at least `half` insertions ago, or never. */
  lemma {:induction false} Staggered(n: nat, half: nat)
    requires half > 0
    ensures var p := PhaseOf(n, half);
            && p.counter < 2 * half && p.start1 <= n && p.start2 <= n
            && (p.counter > 0 ==> p.start1 + p.counter == n)
            && (p.counter == 0 ==> n == 0 || p.start1 + 2 * half == n)
            && (if p.counter > half then p.start2 + p.counter == n + half
                else (p.start2 == 0 && p.counter == n) || p.start2 + p.counter + half == n)
  {
    if n > 0 { Staggered(n - 1, half); }
  }

  /** What the two filters hold after any run from a reset. */
  lemma {:induction false} RunKnows(h: Murmur, r: Rolling, tweak: nat, half: nat, keys: seq<Key>)
    requires r.Ok() && half > 0 && r.nBloomSize == 2 * half
    ensures var s := Run(h, RollReset(r, tweak), keys);
            var p := PhaseOf(|keys|, half);
            && s.nBloomSize == r.nBloomSize && s.nInsertions == p.counter
            && Knows(h, s.b1, keys, p.start1) && Knows(h, s.b2, keys, p.start2)
  {
    if keys != [] {
      var before, k := keys[..|keys| - 1], keys[|keys| - 1];
      RunKnows(h, r, tweak, half, before);
      RollStep(h, Run(h, RollReset(r, tweak), before), half, before, k);
      assert keys == before + [k];
    }
  }

  lemma RollStep(h: Murmur, s: Rolling, half: nat, keys: seq<Key>, k: Key)
    requires s.Ok() && half > 0 && s.nBloomSize == 2 * half
    requires var p := PhaseOf(|keys|, half);
             s.nInsertions == p.counter && Knows(h, s.b1, keys, p.start1) && Knows(h, s.b2, keys, p.start2)
    ensures var t := RollInsert(h, s, k);
            var q := PhaseOf(|keys| + 1, half);
            && t.nBloomSize == s.nBloomSize && t.nInsertions == q.counter
            && Knows(h, t.b1, keys + [k], q.start1) && Knows(h, t.b2, keys + [k], q.start2)
  {
    var p := PhaseOf(|keys|, half);
    if p.counter == 0 {
      ClearKnows(h, s.b1, keys);
      KnowsMore(h, Clear(s.b1), keys, |keys|, k);
    } else {
      KnowsMore(h, s.b1, keys, p.start1, k);
    }
    if p.counter != 0 && p.counter == half {
      ClearKnows(h, s.b2, keys);
      KnowsMore(h, Clear(s.b2), keys, |keys|, k);
    } else {
      KnowsMore(h, s.b2, keys, p.start2, k);
    }
  }

  /** Over every run from a reset, each of the last N keys is reported, across both clears and the counter's wrap. */
  lemma LastKeysContained(h: Murmur, r: Rolling, tweak: nat, half: nat, keys: seq<Key>, i: nat)
    requires r.Ok() && half > 0 && r.nBloomSize == 2 * half
    requires i < |keys| <= i + half
    ensures RollContains(h, Run(h, RollReset(r, tweak), keys), keys[i])
  {
    RunKnows(h, r, tweak, half, keys);
    Staggered(|keys|, half);
  }

  // ---------------------------------------------------------------- nothing but the keys since the last clear

  /** Some hash of some key from position c on falls on bit j. */
  ghost predicate Hit(h: Murmur, f: Filter, keys: seq<Key>, c: nat, j: int)
    requires f.Ok()
  {
    exists i, m :: c <= i < |keys| && 0 <= m < f.nHashFuncs && Index(h, f, m, keys[i]) == j
  }

  /** Exactly the bits of the keys from position c on are set, and the flags say no more than that. */
  ghost predicate Holds(h: Murmur, f: Filter, keys: seq<Key>, c: nat)
    requires f.Ok()
  {
    !f.isFull && (f.isEmpty <==> c == |keys|) && forall j :: 0 <= j < |f.bits| ==> (f.bits[j] <==> Hit(h, f, keys, c, j))
  }

  lemma {:induction false} SetBitsExact(h: Murmur, f: Filter, k: Key, n: nat, j: nat)
    requires f.Ok() && j < |f.bits|
    ensures SetBits(h, f, k, n)[j] <==> f.bits[j] || exists m :: 0 <= m < n && Index(h, f, m, k) == j
  {
    if n > 0 { SetBitsExact(h, f, k, n - 1, j); }
  }

  lemma HitMore(h: Murmur, f: Filter, r: Filter, keys: seq<Key>, c: nat, k: Key, j: nat)
    requires f.Ok() && c <= |keys| && |r.bits| == |f.bits| && r.nHashFuncs == f.nHashFuncs && r.nTweak == f.nTweak
    ensures Hit(h, r, keys + [k], c, j) <==> Hit(h, f, keys, c, j) || exists m :: 0 <= m < f.nHashFuncs && Index(h, f, m, k) == j
  {
    var more := keys + [k];
    assert more[|keys|] == k;
    assert forall m: nat, x: Key :: Index(h, r, m, x) == Index(h, f, m, x);
    if Hit(h, f, keys, c, j) {
      var i, m :| c <= i < |keys| && 0 <= m < f.nHashFuncs && Index(h, f, m, keys[i]) == j;
      assert Index(h, r, m, more[i]) == j;
    }
    if m :| 0 <= m < f.nHashFuncs && Index(h, f, m, k) == j { assert Index(h, r, m, more[|keys|]) == j; }
    if Hit(h, r, more, c, j) {
      var i, m :| c <= i < |more| && 0 <= m < r.nHashFuncs && Index(h, r, m, more[i]) == j;
      assert i < |keys| ==> more[i] == keys[i];
    }
  }

  lemma HoldsMore(h: Murmur, f: Filter, keys: seq<Key>, c: nat, k: Key)
    requires f.Ok() && c <= |keys| && Holds(h, f, keys, c)
    ensures Holds(h, Insert(h, f, k), keys + [k], c)
  {
    var r := Insert(h, f, k);
    forall j | 0 <= j < |r.bits| ensures r.bits[j] <==> Hit(h, r, keys + [k], c, j) {
      SetBitsExact(h, f, k, f.nHashFuncs, j);
      HitMore(h, f, r, keys, c, k, j);
    }
  }

  lemma ClearHolds(h: Murmur, f: Filter, keys: seq<Key>)
    requires f.Ok()
    ensures Clear(f).Ok() && Holds(h, Clear(f), keys, |keys|)
  {
  }

  /** Each bit of x is hit by a key from position c on. */
  ghost predicate Covered(h: Murmur, f: Filter, keys: seq<Key>, c: nat, x: Key)
    requires f.Ok()
  {
    c < |keys| && forall m :: 0 <= m < f.nHashFuncs ==> Hit(h, f, keys, c, Index(h, f, m, x))
  }

  lemma HeldExact(h: Murmur, f: Filter, keys: seq<Key>, c: nat, x: Key)
    requires f.Ok() && c <= |keys| && Holds(h, f, keys, c)
    ensures Contains(h, f, x) <==> Covered(h, f, keys, c, x)
  {
    assert forall m :: 0 <= m < f.nHashFuncs ==> (f.bits[Index(h, f, m, x)] <==> Hit(h, f, keys, c, Index(h, f, m, x)));
  }

  function InsertAll(h: Murmur, f: Filter, keys: seq<Key>): (r: Filter)
    requires f.Ok()
    ensures r.Ok()
  {
    if keys == [] then f else Insert(h, InsertAll(h, f, keys[..|keys| - 1]), keys[|keys| - 1])
  }

  lemma {:induction false} InsertAllHolds(h: Murmur, f: Filter, keys: seq<Key>)
    requires f.Ok()
    ensures Clear(f).Ok() && Holds(h, InsertAll(h, Clear(f), keys), keys, 0)
  {
    if keys == [] {
      ClearHolds(h, f, keys);
    } else {
      var n := |keys| - 1;
      InsertAllHolds(h, f, keys[..n]);
      HoldsMore(h, InsertAll(h, Clear(f), keys[..n]), keys[..n], 0, keys[n]);
      assert keys == keys[..n] + [keys[n]];
    }
  }

  /** A cleared filter that took any keys reports exactly those whose every bit is hit by one of them. */
  lemma FilterExact(h: Murmur, f: Filter, keys: seq<Key>, x: Key)
    requires f.Ok()
    ensures Clear(f).Ok() && var r := InsertAll(h, Clear(f), keys); Contains(h, r, x) <==> Covered(h, r, keys, 0, x)
  {
    InsertAllHolds(h, f, keys);
    HeldExact(h, InsertAll(h, Clear(f), keys), keys, 0, x);
  }

  predicate SameHashing(f: Filter, g: Filter) {
    |f.bits| == |g.bits| && f.nHashFuncs == g.nHashFuncs && f.nTweak == g.nTweak
  }

  /** After any run from a reset both filters hold exactly the keys since their last clear. */
  lemma {:induction false} RunHolds(h: Murmur, r: Rolling, tweak: nat, half: nat, keys: seq<Key>)
    requires r.Ok() && half > 0 && r.nBloomSize == 2 * half
    ensures var s := Run(h, RollReset(r, tweak), keys);
            var p := PhaseOf(|keys|, half);
            && SameHashing(s.b1, r.b1.(nTweak := tweak)) && SameHashing(s.b2, r.b2.(nTweak := tweak))
            && Holds(h, s.b1, keys, p.start1) && Holds(h, s.b2, keys, p.start2)
  {
    RunKnows(h, r, tweak, half, keys);
    if keys == [] {
      ClearHolds(h, r.b1.(nTweak := tweak), keys);
      ClearHolds(h, r.b2.(nTweak := tweak), keys);
    } else {
      var before, k := keys[..|keys| - 1], keys[|keys| - 1];
      RunHolds(h, r, tweak, half, before);
      RunKnows(h, r, tweak, half, before);
      Staggered(|before|, half);
      RollHolds(h, Run(h, RollReset(r, tweak), before), half, before, k);
      assert keys == before + [k];
    }
  }

  lemma RollHolds(h: Murmur, s: Rolling, half: nat, keys: seq<Key>, k: Key)
    requires s.Ok() && half > 0 && s.nBloomSize == 2 * half
    requires var p := PhaseOf(|keys|, half);
             && s.nInsertions == p.counter && p.start1 <= |keys| && p.start2 <= |keys|
             && Holds(h, s.b1, keys, p.start1) && Holds(h, s.b2, keys, p.start2)
    ensures var t := RollInsert(h, s, k);
            var q := PhaseOf(|keys| + 1, half);
            && SameHashing(s.b1, t.b1) && SameHashing(s.b2, t.b2)
            && Holds(h, t.b1, keys + [k], q.start1) && Holds(h, t.b2, keys + [k], q.start2)
  {
    var p := PhaseOf(|keys|, half);
    if p.counter == 0 {
      ClearHolds(h, s.b1, keys);
      HoldsMore(h, Clear(s.b1), keys, |keys|, k);
    } else {
      HoldsMore(h, s.b1, keys, p.start1, k);
    }
    if p.counter != 0 && p.counter == half {
      ClearHolds(h, s.b2, keys);
      HoldsMore(h, Clear(s.b2), keys, |keys|, k);
    } else {
      HoldsMore(h, s.b2, keys, p.start2, k);
    }
  }

  /** The filter that answers. */
  function Answering(s: Rolling): Filter {
    if s.nInsertions < s.nBloomSize / 2 then s.b2 else s.b1
  }

  /** Where the filter that answers after n insertions was last cleared. */
  function Since(n: nat, half: nat): nat {
    var p := PhaseOf(n, half);
    if p.counter < half then p.start2 else p.start1
  }

  /** That is less than 2N and, but for the start, at least N keys back. */
  lemma SinceBounds(n: nat, half: nat)
    requires half > 0
    ensures var c := Since(n, half); c <= n < c + 2 * half && (c == 0 || c + half <= n)
  {
    Staggered(n, half);
  }

  /** Over every run from a reset a key is reported exactly if each of its bits is hit by a key inserted since then. */
  lemma ReportedExact(h: Murmur, r: Rolling, tweak: nat, half: nat, keys: seq<Key>, x: Key)
    requires r.Ok() && half > 0 && r.nBloomSize == 2 * half
    ensures var s := Run(h, RollReset(r, tweak), keys);
            RollContains(h, s, x) <==> Covered(h, Answering(s), keys, Since(|keys|, half), x)
  {
    RunKnows(h, r, tweak, half, keys);
    RunHolds(h, r, tweak, half, keys);
    Staggered(|keys|, half);
    HeldExact(h, Answering(Run(h, RollReset(r, tweak), keys)), keys, Since(|keys|, half), x);
  }

  lemma HitFrom(h: Murmur, f: Filter, keys: seq<Key>, c: nat, b: nat, j: int)
    requires f.Ok() && b <= c && Hit(h, f, keys, c, j)
    ensures Hit(h, f, keys, b, j)
  {
    var i, m :| c <= i < |keys| && 0 <= m < f.nHashFuncs && Index(h, f, m, keys[i]) == j;
  }

  lemma CoveredFrom(h: Murmur, f: Filter, keys: seq<Key>, c: nat, b: nat, x: Key)
    requires f.Ok() && b <= c && Covered(h, f, keys, c, x)
    ensures Covered(h, f, keys, b, x)
  {
    forall m | 0 <= m < f.nHashFuncs ensures Hit(h, f, keys, b, Index(h, f, m, x)) {
      HitFrom(h, f, keys, c, b, Index(h, f, m, x));
    }
  }

  lemma CoveredRecently(h: Murmur, s: Rolling, half: nat, keys: seq<Key>, x: Key, b: nat)
    requires s.Ok() && half > 0 && (b == 0 || b + 2 * half <= |keys| + 1)
    requires Covered(h, Answering(s), keys, Since(|keys|, half), x)
    ensures Covered(h, Answering(s), keys, b, x)
  {
    SinceBounds(|keys|, half);
    CoveredFrom(h, Answering(s), keys, Since(|keys|, half), b, x);
  }

  /** A reported key has every bit in common with one of the last 2N - 1 keys. */
  lemma OnlyRecentKeys(h: Murmur, r: Rolling, tweak: nat, half: nat, keys: seq<Key>, x: Key, b: nat)
    requires r.Ok() && half > 0 && r.nBloomSize == 2 * half && (b == 0 || b + 2 * half <= |keys| + 1)
    ensures var s := Run(h, RollReset(r, tweak), keys); RollContains(h, s, x) ==> Covered(h, Answering(s), keys, b, x)
  {
    ReportedExact(h, r, tweak, half, keys, x);
    var s := Run(h, RollReset(r, tweak), keys);
    if Covered(h, Answering(s), keys, Since(|keys|, half), x) { CoveredRecently(h, s, half, keys, x, b); }
  }
}
