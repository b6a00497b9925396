/**
 * The eight-way cuckoo cache of src/cuckoocache.h: lazily erased slots, two living epochs and a counter that
 * saves scanning the table on most inserts.  This module gives the behaviour on values and what every run keeps.
 */
module Cuckoo {
  import opened Basics

  /** The cache is used with 256-bit hashes; a slot never written holds the null hash. */
  type Element = nat
  const NONE: Element := 0
  const INVALID: U32 := 0xFFFF_FFFF

  /** The parts fixed by setup: hash(k, e) is the k-th 32-bit hash of e, depth the kick limit. */
  datatype Config = Config(size: U32, hash: (int, Element) -> U32, depth: nat) {
    predicate Ok() { 2 <= size <= 0xFFFF_FFF8 }

    /** The 32-bit multiplication wraps before the division. */
    function EpochSize(): nat {
      Max(1, (45 * size) % 0x1_0000_0000 / 100)
    }
  }

  datatype State = State(table: seq<Element>, garbage: seq<bool>, recent: seq<bool>, counter: nat)

  function Max(a: nat, b: nat): nat { if a < b then b else a }

  // ---------------------------------------------------------------- slots

  /** A 32-bit hash read as a fraction of the table. */
  function Slot(h: U32, size: U32): (i: U32)
    requires 0 < size
    ensures i < size
  {
    SlotBound(h, size);
    h * size / 0x1_0000_0000
  }

  lemma SlotBound(h: U32, size: U32)
    requires 0 < size
    ensures 0 <= h * size / 0x1_0000_0000 < size
  {
    var n := 0x1_0000_0000;
    assert 0 <= h * size <= (n - 1) * size < n * size;
  }

  function Locs(c: Config, e: Element): (locs: seq<U32>)
    requires c.Ok()
    ensures |locs| == 8 && forall l <- locs :: l < c.size
  {
    seq<U32>(8, k requires 0 <= k < 8 => SlotOf(c, e, k))
  }

  function SlotOf(c: Config, e: Element, k: int): (i: U32)
    requires c.Ok()
    ensures i < c.size
  {
    Slot(c.hash(k, e), c.size)
  }

  function IndexOf(locs: seq<U32>, l: U32): (k: nat)
    ensures k <= |locs|
    ensures k < |locs| ==> locs[k] == l
    ensures k == |locs| ==> l !in locs
  {
    if locs == [] then 0 else if locs[0] == l then 0 else 1 + IndexOf(locs[1..], l)
  }

  /** Line 430: the position after the last one used; a last_loc not among the eight counts as position eight. */
  function NextLoc(locs: seq<U32>, last: U32): (l: U32)
    requires |locs| == 8
    ensures l in locs
  {
    locs[(1 + IndexOf(locs, last)) % 8]
  }

  /** The first of the slots, in probing order, that satisfies p. */
  function First(locs: seq<U32>, p: U32 -> bool): (k: nat)
    ensures k <= |locs|
    ensures k < |locs| ==> p(locs[k])
    ensures forall j :: 0 <= j < k ==> !p(locs[j])
  {
    if locs == [] || p(locs[0]) then 0 else 1 + First(locs[1..], p)
  }

  lemma {:induction false} FirstIs(locs: seq<U32>, p: U32 -> bool, k: nat)
    requires k <= |locs| && (k < |locs| ==> p(locs[k])) && forall j :: 0 <= j < k ==> !p(locs[j])
    ensures First(locs, p) == k
  {
    if locs != [] && k > 0 { FirstIs(locs[1..], p, k - 1); }
  }

  // ---------------------------------------------------------------- invariants

  predicate Shape(c: Config, s: State) {
    c.Ok() && |s.table| == |s.garbage| == |s.recent| == c.size
  }

  /** A slot holding an element, or kept alive, is one of the eight slots of what it holds. */
  predicate Placed(c: Config, s: State, i: nat)
    requires Shape(c, s) && i < c.size
  {
    s.table[i] != NONE || !s.garbage[i] ==> i in Locs(c, s.table[i])
  }

  predicate Unique(table: seq<Element>) {
    forall i, j :: 0 <= i < j < |table| && table[i] == table[j] ==> table[i] == NONE
  }

  predicate Inv(c: Config, s: State) {
    && Shape(c, s)
    && (forall i :: 0 <= i < c.size ==> Placed(c, s, i))
    && Unique(s.table)
  }

  /** Live elements of the current epoch among the first n slots. */
  function Live(recent: seq<bool>, garbage: seq<bool>, n: nat): (r: nat)
    requires n <= |recent| && n <= |garbage|
    ensures r <= n
  {
    if n == 0 then 0
    else Live(recent, garbage, n - 1) + if recent[n - 1] && !garbage[n - 1] then 1 else 0
  }

  function Epoch(s: State): nat
    requires |s.recent| == |s.garbage|
  {
    Live(s.recent, s.garbage, |s.recent|)
  }

  function Bit(b: bool): nat { if b then 1 else 0 }

  /** What the skipped scans may let an epoch grow to. */
  predicate Bounded(c: Config, s: State)
    requires Shape(c, s)
  {
    Epoch(s) + s.counter <= c.EpochSize() + Max(1, c.EpochSize() / 16)
  }

  // ---------------------------------------------------------------- operations

  /** Lines 339-352. */
  function Setup(c: Config): State {
    State(seq(c.size, _ => NONE), seq(c.size, _ => true), seq(c.size, _ => false), c.EpochSize())
  }

  /** Lines 288-320. */
  function EpochCheck(c: Config, s: State): State
    requires Shape(c, s)
  {
    if s.counter != 0 then s.(counter := s.counter - 1)
    else if Epoch(s) >= c.EpochSize() then
      s.(garbage := Aged(s), recent := seq(c.size, _ => false), counter := c.EpochSize())
    else s.(counter := Max(1, Max(c.EpochSize() / 16, c.EpochSize() - Epoch(s))))
  }

  function Aged(s: State): seq<bool>
    requires |s.recent| == |s.garbage|
  {
    seq(|s.garbage|, i requires 0 <= i < |s.garbage| => s.garbage[i] || !s.recent[i])
  }

  /** The slot of e that holds e, as a position among its eight, or eight. */
  function Find(c: Config, s: State, e: Element): nat
    requires Shape(c, s)
  {
    First(Locs(c, e), l => 0 <= l < |s.table| && s.table[l] == e)
  }

  function Room(c: Config, s: State, e: Element): nat
    requires Shape(c, s)
  {
    First(Locs(c, e), l => 0 <= l < |s.garbage| && s.garbage[l])
  }

  function Put(s: State, l: U32, e: Element, recent: bool): State
    requires l < |s.table| && |s.table| == |s.garbage| == |s.recent|
  {
    s.(table := s.table[l := e], garbage := s.garbage[l := false], recent := s.recent[l := recent])
  }

  function Swap(s: State, l: U32, e: Element, recent: bool): State
    requires l < |s.table| && |s.table| == |s.recent|
  {
    s.(table := s.table[l := e], recent := s.recent[l := recent])
  }

  /** The element that leaves, if any, and whether the kick limit forced it out. */
  datatype Loss = Kept | Overwritten(e: Element, slot: U32) | RanOut(e: Element) {
    function Out(): multiset<Element> {
      match this
      case Kept => multiset{}
      case Overwritten(e, _) => multiset{e}
      case RanOut(e) => multiset{e}
    }
  }

  /** Lines 406-439: place e, or swap it in and go on with what it displaced. */
  function Kick(c: Config, s: State, e: Element, last: U32, recent: bool, depth: nat): (r: (State, Loss))
    requires Shape(c, s)
    ensures Shape(c, r.0)
    decreases depth
  {
    var locs := Locs(c, e);
    var k := Room(c, s, e);
    if depth == 0 then (s, RanOut(e))
    else if k < 8 then (Put(s, locs[k], e, recent), Overwritten(s.table[locs[k]], locs[k]))
    else
      var l := NextLoc(locs, last);
      Kick(c, Swap(s, l, e, recent), s.table[l], l, s.recent[l], depth - 1)
  }

  /** One turn of the kick loop. */
  lemma KickUnfolds(c: Config, s: State, e: Element, last: U32, recent: bool, depth: nat)
    requires Shape(c, s) && depth > 0
    ensures var locs, k, r := Locs(c, e), Room(c, s, e), Kick(c, s, e, last, recent, depth);
            if k < 8 then r == (Put(s, locs[k], e, recent), Overwritten(s.table[locs[k]], locs[k]))
            else
              var l := NextLoc(locs, last);
              r == Kick(c, Swap(s, l, e, recent), s.table[l], l, s.recent[l], depth - 1)
  {
  }

  /** Lines 392-440. */
  function Insert(c: Config, s: State, e: Element): (State, Loss)
    requires Shape(c, s)
  {
    var t := EpochCheck(c, s);
    var k := Find(c, t, e);
    if k < 8 then (Put(t, Locs(c, e)[k], e, true), Kept)
    else Kick(c, t, e, INVALID, true, c.depth)
  }

  /** Lines 469-479. */
  function Contains(c: Config, s: State, e: Element, erase: bool): (State, bool)
    requires Shape(c, s)
  {
    var k := Find(c, s, e);
    if k < 8 then (if erase then s.(garbage := s.garbage[Locs(c, e)[k] := true]) else s, true)
    else (s, false)
  }

  // ---------------------------------------------------------------- counting the current epoch

  lemma {:induction false} LiveSame(recent: seq<bool>, garbage: seq<bool>, recent': seq<bool>, garbage': seq<bool>, n: nat)
    requires n <= |recent| && n <= |garbage| && n <= |recent'| && n <= |garbage'|
    requires forall i :: 0 <= i < n ==> recent[i] == recent'[i] && garbage[i] == garbage'[i]
    ensures Live(recent, garbage, n) == Live(recent', garbage', n)
  {
    if n > 0 { LiveSame(recent, garbage, recent', garbage', n - 1); }
  }

  /** Changing one slot changes the count by that slot's share. */
  lemma {:induction false} LiveChanged(recent: seq<bool>, garbage: seq<bool>, recent': seq<bool>, garbage': seq<bool>, l: nat, n: nat)
    requires l < n <= |recent| && n <= |garbage| && n <= |recent'| && n <= |garbage'|
    requires forall i :: 0 <= i < n && i != l ==> recent[i] == recent'[i] && garbage[i] == garbage'[i]
    ensures Live(recent', garbage', n) + Bit(recent[l] && !garbage[l])
         == Live(recent, garbage, n) + Bit(recent'[l] && !garbage'[l])
  {
    if n == l + 1 {
      LiveSame(recent, garbage, recent', garbage', l);
    } else {
      LiveChanged(recent, garbage, recent', garbage', l, n - 1);
    }
  }

  lemma {:induction false} LiveNone(recent: seq<bool>, garbage: seq<bool>, n: nat)
    requires n <= |recent| && n <= |garbage|
    requires forall i :: 0 <= i < n ==> !recent[i]
    ensures Live(recent, garbage, n) == 0
  {
    if n > 0 { LiveNone(recent, garbage, n - 1); }
  }

  lemma EpochChanged(s: State, s': State, l: nat)
    requires |s.recent| == |s.garbage| == |s'.recent| == |s'.garbage| && l < |s.recent|
    requires forall i :: 0 <= i < |s.recent| && i != l ==> s.recent[i] == s'.recent[i] && s.garbage[i] == s'.garbage[i]
    ensures Epoch(s') + Bit(s.recent[l] && !s.garbage[l]) == Epoch(s) + Bit(s'.recent[l] && !s'.garbage[l])
  {
    LiveChanged(s.recent, s.garbage, s'.recent, s'.garbage, l, |s.recent|);
  }

  // ---------------------------------------------------------------- single steps

  lemma EpochCheckKeeps(c: Config, s: State)
    requires Inv(c, s) && Bounded(c, s)
    ensures var t := EpochCheck(c, s);
            Inv(c, t) && t.table == s.table
            && Epoch(t) + t.counter + 1 <= c.EpochSize() + Max(1, c.EpochSize() / 16)
            && forall i :: 0 <= i < c.size ==> s.garbage[i] ==> t.garbage[i]
  {
    var t := EpochCheck(c, s);
    forall i | 0 <= i < c.size ensures Placed(c, t, i) { assert Placed(c, s, i); }
    if s.counter == 0 && Epoch(s) >= c.EpochSize() {
      LiveNone(t.recent, t.garbage, c.size);
    }
  }

  /** Writing e over a slot of its own, when e is nowhere else. */
  lemma WriteKeeps(c: Config, s: State, s': State, l: U32, e: Element)
    requires Inv(c, s) && l in Locs(c, e)
    requires e == NONE || e !in s.table || s.table[l] == e
    requires Shape(c, s') && s'.table == s.table[l := e]
    requires forall i :: 0 <= i < c.size && i != l ==> s.garbage[i] == s'.garbage[i]
    ensures Inv(c, s')
  {
    forall i | 0 <= i < c.size ensures Placed(c, s', i) {
      assert Placed(c, s, i);
    }
  }

  lemma RoomFacts(c: Config, s: State, e: Element)
    requires Shape(c, s)
    ensures var k := Room(c, s, e);
            k <= 8 && (k < 8 ==> s.garbage[Locs(c, e)[k]]) && (k == 8 ==> forall l <- Locs(c, e) :: !s.garbage[l])
  {
    var locs, k := Locs(c, e), Room(c, s, e);
    if k == 8 {
      forall l | l in locs ensures !s.garbage[l] {
        var j :| 0 <= j < |locs| && locs[j] == l;
      }
    }
  }

  /** After a swap the displaced element is in turn nowhere in the table. */
  lemma SwapKeeps(c: Config, s: State, l: U32, e: Element, recent: bool)
    requires Inv(c, s) && l in Locs(c, e) && !s.garbage[l]
    requires e == NONE || e !in s.table
    ensures var t := Swap(s, l, e, recent); Inv(c, t) && (s.table[l] == NONE || s.table[l] !in t.table)
  {
    WriteKeeps(c, s, Swap(s, l, e, recent), l, e);
  }

  predicate LiveIn(s: State, e: Element) {
    exists i :: 0 <= i < |s.table| && i < |s.garbage| && s.table[i] == e && !s.garbage[i]
  }

  /** Exactly one element leaves, and a live one, or the new one, only when the kicks run out. */
  predicate Fair(s: State, e: Element, r: (State, Loss)) {
    && multiset(r.0.table) + r.1.Out() == multiset(s.table) + multiset{e}
    && r.0.counter == s.counter
    && match r.1
       case Kept => false
       case Overwritten(x, i) =>
         i < |s.table| && i < |s.garbage| && s.table[i] == x && s.garbage[i] && r.0.garbage == s.garbage[i := false]
       case RanOut(x) => r.0.garbage == s.garbage && (x == e || LiveIn(s, x))
  }

  lemma FairStep(s: State, l: U32, e: Element, recent: bool, r: (State, Loss))
    requires l < |s.table| == |s.garbage| == |s.recent| && !s.garbage[l]
    requires var t := Swap(s, l, e, recent);
             && multiset(t.table) + multiset{s.table[l]} == multiset(s.table) + multiset{e}
             && Fair(t, s.table[l], r)
    ensures Fair(s, e, r)
  {
    var t := Swap(s, l, e, recent);
    match r.1
    case Overwritten(x, i) =>
    case RanOut(x) =>
      if x == s.table[l] {
        assert LiveIn(s, x);
      } else {
        var i :| 0 <= i < |t.table| && i < |t.garbage| && t.table[i] == x && !t.garbage[i];
        assert i == l || s.table[i] == x;
      }
  }

  lemma PutKeeps(c: Config, s: State, l: U32, e: Element, recent: bool)
    requires Inv(c, s) && l in Locs(c, e) && s.garbage[l]
    requires e == NONE || e !in s.table
    ensures var t := Put(s, l, e, recent);
            Inv(c, t) && Fair(s, e, (t, Overwritten(s.table[l], l))) && Epoch(t) <= Epoch(s) + Bit(recent)
  {
    var t := Put(s, l, e, recent);
    WriteKeeps(c, s, t, l, e);
    EpochChanged(s, t, l);
  }

  /** One turn of the kick loop. */
  lemma KickTurn(s: State, l: U32, e: Element, recent: bool, r: (State, Loss))
    requires l < |s.table| == |s.garbage| == |s.recent| && !s.garbage[l] && |r.0.recent| == |r.0.garbage|
    requires var t := Swap(s, l, e, recent);
             Fair(t, s.table[l], r) && Epoch(r.0) <= Epoch(t) + Bit(s.recent[l])
    ensures Fair(s, e, r) && Epoch(r.0) <= Epoch(s) + Bit(recent)
  {
    var t := Swap(s, l, e, recent);
    assert multiset(t.table) + multiset{s.table[l]} == multiset(s.table) + multiset{e};
    EpochChanged(s, t, l);
    FairStep(s, l, e, recent, r);
  }

  lemma {:induction false} KickKeeps(c: Config, s: State, e: Element, last: U32, recent: bool, depth: nat)
    requires Inv(c, s) && (e == NONE || e !in s.table)
    ensures Inv(c, Kick(c, s, e, last, recent, depth).0)
    decreases depth
  {
    RoomFacts(c, s, e);
    var locs, k := Locs(c, e), Room(c, s, e);
    if depth == 0 {
    } else if k < 8 {
      PutKeeps(c, s, locs[k], e, recent);
    } else {
      var l := NextLoc(locs, last);
      SwapKeeps(c, s, l, e, recent);
      KickKeeps(c, Swap(s, l, e, recent), s.table[l], l, s.recent[l], depth - 1);
    }
  }

  lemma {:induction false} KickExact(c: Config, s: State, e: Element, last: U32, recent: bool, depth: nat)
    requires Inv(c, s) && (e == NONE || e !in s.table)
    ensures var r := Kick(c, s, e, last, recent, depth);
            Fair(s, e, r) && Epoch(r.0) <= Epoch(s) + Bit(recent)
    decreases depth
  {
    RoomFacts(c, s, e);
    var locs, k := Locs(c, e), Room(c, s, e);
    if depth == 0 {
    } else if k < 8 {
      PutKeeps(c, s, locs[k], e, recent);
    } else {
      var l := NextLoc(locs, last);
      SwapKeeps(c, s, l, e, recent);
      var t := Swap(s, l, e, recent);
      KickExact(c, t, s.table[l], l, s.recent[l], depth - 1);
      KickTurn(s, l, e, recent, Kick(c, t, s.table[l], l, s.recent[l], depth - 1));
    }
  }

  /** The eight probes see exactly what a scan of the whole table would. */
  lemma ContainsScans(c: Config, s: State, e: Element)
    requires Inv(c, s)
    ensures Find(c, s, e) < 8 ==> e in s.table && s.table[Locs(c, e)[Find(c, s, e)]] == e
    ensures e != NONE ==> (Contains(c, s, e, false).1 <==> e in s.table)
    ensures LiveIn(s, e) ==> Contains(c, s, e, false).1
  {
    var locs, k := Locs(c, e), Find(c, s, e);
    forall i | 0 <= i < c.size && s.table[i] == e && (e != NONE || !s.garbage[i]) ensures k < 8 {
      assert Placed(c, s, i);
      var j :| 0 <= j < |locs| && locs[j] == i;
    }
  }

  /** What an insert does to the table, the flags and the epoch, from any reachable state. */
  lemma InsertExact(c: Config, s: State, e: Element)
    requires Inv(c, s) && Bounded(c, s)
    ensures var r, t := Insert(c, s, e), EpochCheck(c, s);
            && Inv(c, r.0) && Bounded(c, r.0)
            && t.table == s.table
            && (r.1.Kept? <==> Find(c, s, e) < 8)
            && (r.1.Kept? ==> r.0.table == s.table && LiveIn(r.0, e))
            && (!r.1.Kept? ==> Fair(t, e, r))
  {
    EpochCheckKeeps(c, s);
    var t := EpochCheck(c, s);
    ContainsScans(c, t, e);
    ContainsScans(c, s, e);
    FindTable(c, s, t, e);
    var k := Find(c, t, e);
    if k < 8 {
      var l := Locs(c, e)[k];
      var u := Put(t, l, e, true);
      WriteKeeps(c, t, u, l, e);
      EpochChanged(t, u, l);
      assert u.table == s.table && u.table[l] == e && !u.garbage[l];
    } else {
      KickKeeps(c, t, e, INVALID, true, c.depth);
      KickExact(c, t, e, INVALID, true, c.depth);
    }
  }

  lemma FindTable(c: Config, s: State, t: State, e: Element)
    requires Shape(c, s) && Shape(c, t) && s.table == t.table
    ensures Find(c, s, e) == Find(c, t, e)
  {
    FirstSame(Locs(c, e), l => 0 <= l < |s.table| && s.table[l] == e, l => 0 <= l < |t.table| && t.table[l] == e);
  }

  lemma {:induction false} FirstSame(locs: seq<U32>, p: U32 -> bool, q: U32 -> bool)
    requires forall l <- locs :: p(l) == q(l)
    ensures First(locs, p) == First(locs, q)
  {
    if locs != [] { FirstSame(locs[1..], p, q); }
  }

  /** An element one of whose slots is free goes in at once and pushes nothing alive out. */
  lemma InsertWithRoom(c: Config, s: State, e: Element, l: U32)
    requires Inv(c, s) && Bounded(c, s) && c.depth > 0
    requires l in Locs(c, e) && s.garbage[l]
    ensures var r := Insert(c, s, e);
            LiveIn(r.0, e) && Contains(c, r.0, e, false).1 && (e !in s.table ==> r.1.Overwritten?)
  {
    EpochCheckKeeps(c, s);
    InsertExact(c, s, e);
    var t, r, locs := EpochCheck(c, s), Insert(c, s, e), Locs(c, e);
    RoomFacts(c, t, e);
    ContainsScans(c, t, e);
    ContainsScans(c, s, e);
    if !r.1.Kept? {
      FindTable(c, s, t, e);
      var i := locs[Room(c, t, e)];
      assert r.0.table[i] == e && !r.0.garbage[i];
    }
    ContainsScans(c, r.0, e);
  }

  /** Erasing marks the slot and leaves the element to be found again until the slot is needed. */
  lemma ContainsKeeps(c: Config, s: State, e: Element, erase: bool)
    requires Inv(c, s) && Bounded(c, s)
    ensures var r := Contains(c, s, e, erase);
            && Inv(c, r.0) && Bounded(c, r.0)
            && r.0.table == s.table
            && Contains(c, r.0, e, false).1 == r.1
            && (erase && e != NONE ==> !LiveIn(r.0, e))
            && forall x :: x != e && LiveIn(s, x) ==> LiveIn(r.0, x)
  {
    var r := Contains(c, s, e, erase);
    var k := Find(c, s, e);
    FindTable(c, s, r.0, e);
    ContainsScans(c, s, e);
    if erase && k < 8 {
      var l := Locs(c, e)[k];
      EpochChanged(s, r.0, l);
      forall i | 0 <= i < c.size ensures Placed(c, r.0, i) { assert Placed(c, s, i); }
      forall x | x != e && LiveIn(s, x) ensures LiveIn(r.0, x) {
        var i :| 0 <= i < |s.table| && s.table[i] == x && !s.garbage[i];
        assert r.0.table[i] == x && !r.0.garbage[i];
      }
    }
  }

  lemma SetupOk(c: Config)
    requires c.Ok()
    ensures Inv(c, Setup(c)) && Bounded(c, Setup(c)) && Epoch(Setup(c)) == 0
    ensures forall x <- Setup(c).table :: x == NONE
  {
    var s := Setup(c);
    LiveNone(s.recent, s.garbage, c.size);
    forall i | 0 <= i < c.size ensures Placed(c, s, i) { }
  }

  // ---------------------------------------------------------------- whole runs

  datatype Op = InsertOp(e: Element) | ContainsOp(e: Element, erase: bool)

  function Step(c: Config, s: State, op: Op): (State, Loss)
    requires Shape(c, s)
  {
    match op
    case InsertOp(e) => Insert(c, s, e)
    case ContainsOp(e, erase) => (Contains(c, s, e, erase).0, Kept)
  }

  function Run(c: Config, ops: seq<Op>): (s: State)
    requires c.Ok()
    ensures Shape(c, s)
  {
    if ops == [] then Setup(c) else Step(c, Run(c, ops[..|ops| - 1]), ops[|ops| - 1]).0
  }

  /** Everything that left the table in the run. */
  function Lost(c: Config, ops: seq<Op>): multiset<Element>
    requires c.Ok()
  {
    if ops == [] then multiset{}
    else
      var before := ops[..|ops| - 1];
      Lost(c, before) + Step(c, Run(c, before), ops[|ops| - 1]).1.Out()
  }

  /** Everything stored in the run: the inserts that did not find their element. */
  function Stored(c: Config, ops: seq<Op>): multiset<Element>
    requires c.Ok()
  {
    if ops == [] then multiset{}
    else
      var before, op := ops[..|ops| - 1], ops[|ops| - 1];
      Stored(c, before) + StoredBy(c, Run(c, before), op)
  }

  function StoredBy(c: Config, s: State, op: Op): multiset<Element>
    requires Shape(c, s)
  {
    if op.InsertOp? && Find(c, s, op.e) == 8 then multiset{op.e} else multiset{}
  }

  /** After every run: placement, uniqueness, the epoch bound, and nothing appears or vanishes unaccounted. */
  lemma {:induction false} RunKeeps(c: Config, ops: seq<Op>)
    requires c.Ok()
    ensures var s := Run(c, ops);
            && Inv(c, s) && Bounded(c, s)
            && multiset(s.table) + Lost(c, ops) == multiset(Setup(c).table) + Stored(c, ops)
  {
    SetupOk(c);
    if ops != [] {
      var before, op := ops[..|ops| - 1], ops[|ops| - 1];
      RunKeeps(c, before);
      var s := Run(c, before);
      StepConserves(c, s, op);
      Account(s.table, Lost(c, before), Setup(c).table, Stored(c, before),
              Run(c, ops).table, Step(c, s, op).1.Out(), StoredBy(c, s, op));
    }
  }

  lemma StepConserves(c: Config, s: State, op: Op)
    requires Inv(c, s) && Bounded(c, s)
    ensures var r := Step(c, s, op);
            && Inv(c, r.0) && Bounded(c, r.0)
            && multiset(r.0.table) + r.1.Out() == multiset(s.table) + StoredBy(c, s, op)
  {
    match op
    case InsertOp(e) => InsertExact(c, s, e);
    case ContainsOp(e, erase) => ContainsKeeps(c, s, e, erase);
  }

  lemma Account(t: seq<Element>, lost: multiset<Element>, t0: seq<Element>, stored: multiset<Element>,
                t': seq<Element>, out: multiset<Element>, new': multiset<Element>)
    requires multiset(t) + lost == multiset(t0) + stored
    requires multiset(t') + out == multiset(t) + new'
    ensures multiset(t') + (lost + out) == multiset(t0) + (stored + new')
  {
    assert multiset(t') + (lost + out) == (multiset(t') + out) + lost;
    assert (multiset(t) + new') + lost == (multiset(t) + lost) + new';
  }

  /** An element found after a run was inserted in it. */
  lemma FoundWasInserted(c: Config, ops: seq<Op>, e: Element)
    requires c.Ok() && e != NONE && Contains(c, Run(c, ops), e, false).1
    ensures InsertOp(e) in ops
  {
    RunKeeps(c, ops);
    SetupOk(c);
    ContainsScans(c, Run(c, ops), e);
    assert e in multiset(Run(c, ops).table) + Lost(c, ops);
    StoredWasInserted(c, ops, e);
  }

  lemma {:induction false} StoredWasInserted(c: Config, ops: seq<Op>, e: Element)
    requires c.Ok() && e in Stored(c, ops)
    ensures InsertOp(e) in ops
  {
    var before, op := ops[..|ops| - 1], ops[|ops| - 1];
    if e in Stored(c, before) { StoredWasInserted(c, before, e); }
  }

  // ---------------------------------------------------------------- 32-bit sizes

  /** The epoch is 45% of the table exactly as long as the 32-bit product does not wrap. */
  lemma EpochSizeExact(c: Config)
    ensures c.EpochSize() == Max(1, 45 * c.size / 100) <==> 45 * c.size < 0x1_0000_0000
  {
  }

  function FlagBytes(size: U32): nat { (size + 7) % 0x1_0000_0000 / 8 }

  /** The packed flags cover every slot exactly for sizes that can be rounded up to a byte in 32 bits. */
  lemma FlagsCover(size: U32)
    ensures size <= 8 * FlagBytes(size) <==> size <= 0xFFFF_FFF8
  {
  }

  /** At the largest size the source allows for, 2^32 - 2, there is no flag byte at all and the epoch is off. */
  lemma DocumentedSizeFails(c: Config)
    requires c.size == 0xFFFF_FFFE
    ensures FlagBytes(c.size) == 0 && c.EpochSize() != Max(1, 45 * c.size / 100)
  {
    FlagsCover(c.size);
    EpochSizeExact(c);
  }
}
