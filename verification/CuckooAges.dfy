/**
 * How long an element of the cuckoo cache lives: an insert makes it recent, each turnover of the epoch makes it older by
 * one step, and apart from that only an erase or the kick limit ends it.
 */
module CuckooAges {
  import opened Basics
  import opened Cuckoo

  datatype Age = Gone | Old | Recent {
    function Older(): Age { if Recent? then Old else Gone }
  }

  predicate HeldAt(s: State, i: int, e: Element) {
    0 <= i < |s.table| && i < |s.garbage| && i < |s.recent| && s.table[i] == e && !s.garbage[i]
  }

  /** The element's age by the flags of the live slot that holds it. */
  ghost function AgeOf(s: State, e: Element): Age {
    if exists i :: HeldAt(s, i, e) && s.recent[i] then Recent
    else if exists i :: HeldAt(s, i, e) then Old
    else Gone
  }

  lemma AgeAt(c: Config, s: State, i: int, e: Element)
    requires Inv(c, s) && e != NONE && HeldAt(s, i, e)
    ensures AgeOf(s, e) == if s.recent[i] then Recent else Old
  {
    if AgeOf(s, e).Recent? {
      var j :| HeldAt(s, j, e) && s.recent[j];
      assert i == j;
    }
  }

  lemma AgeNone(s: State, e: Element)
    requires |s.table| == |s.garbage| == |s.recent|
    requires forall i :: 0 <= i < |s.table| && s.table[i] == e ==> s.garbage[i]
    ensures AgeOf(s, e) == Gone
  {
  }

  lemma AgeIsLive(s: State, e: Element)
    requires |s.table| == |s.garbage| == |s.recent|
    ensures AgeOf(s, e) != Gone <==> LiveIn(s, e)
  {
    if LiveIn(s, e) {
      var i :| 0 <= i < |s.table| && i < |s.garbage| && s.table[i] == e && !s.garbage[i];
      assert HeldAt(s, i, e);
    }
  }

  /** An element whose slot keeps its flags keeps its age. */
  lemma AgeKept(c: Config, s: State, t: State, l: int, e: Element)
    requires Inv(c, s) && Inv(c, t) && e != NONE && 0 <= l < c.size
    requires forall i :: 0 <= i < c.size && i != l ==> t.table[i] == s.table[i] && t.garbage[i] == s.garbage[i] && t.recent[i] == s.recent[i]
    requires (s.table[l] == e ==> s.garbage[l]) && t.table[l] != e
    ensures AgeOf(t, e) == AgeOf(s, e)
  {
    if i :| HeldAt(s, i, e) {
      AgeAt(c, s, i, e);
      assert HeldAt(t, i, e);
      AgeAt(c, t, i, e);
    } else {
      forall i | 0 <= i < c.size && t.table[i] == e ensures t.garbage[i] { assert !HeldAt(s, i, e); }
      AgeNone(t, e);
    }
  }

  // ---------------------------------------------------------------- the epoch check

  /** Lines 288-304: the counter has run out and the scan finds a full epoch. */
  ghost predicate Turns(c: Config, s: State)
    requires Shape(c, s)
  {
    s.counter == 0 && c.EpochSize() <= |LiveSlots(s, |s.recent|)|
  }

  /** The slots below n of the current epoch that are not erased. */
  ghost function LiveSlots(s: State, n: nat): set<int> {
    set i | 0 <= i < n && i < |s.recent| && i < |s.garbage| && s.recent[i] && !s.garbage[i]
  }

  lemma {:induction false} LiveCounts(s: State, n: nat)
    requires n <= |s.recent| == |s.garbage|
    ensures Live(s.recent, s.garbage, n) == |LiveSlots(s, n)|
  {
    if n == 0 {
      assert LiveSlots(s, n) == {};
    } else {
      LiveCounts(s, n - 1);
      var last := n - 1;
      assert LiveSlots(s, n) == LiveSlots(s, last) + if s.recent[last] && !s.garbage[last] then {last} else {};
    }
  }

  /** The flags change only when the epoch turns: then all that is not recent may be overwritten, and all that is recent
      becomes old.  The counter waits for as many inserts as the epoch has room for, and never less than one sixteenth. */
  lemma EpochCheckExact(c: Config, s: State)
    requires Shape(c, s)
    ensures var t := EpochCheck(c, s);
            && t.table == s.table && Shape(c, t)
            && (!Turns(c, s) ==> t.garbage == s.garbage && t.recent == s.recent)
            && (Turns(c, s) ==> forall i :: 0 <= i < c.size ==> !t.recent[i] && (t.garbage[i] <==> s.garbage[i] || !s.recent[i]))
    ensures var t, room := EpochCheck(c, s), c.EpochSize() - |LiveSlots(s, |s.recent|)|;
            && (s.counter > 0 ==> t.counter == s.counter - 1)
            && (Turns(c, s) ==> t.counter == c.EpochSize())
            && (s.counter == 0 && !Turns(c, s) ==>
                  t.counter >= 1 && t.counter >= room && t.counter >= c.EpochSize() / 16 && t.counter in {1, room, c.EpochSize() / 16})
  {
    LiveCounts(s, |s.recent|);
  }

  lemma TurnoverAges(c: Config, s: State, e: Element)
    requires Inv(c, s) && Inv(c, EpochCheck(c, s)) && e != NONE
    ensures AgeOf(EpochCheck(c, s), e) == if Turns(c, s) then AgeOf(s, e).Older() else AgeOf(s, e)
  {
    var t := EpochCheck(c, s);
    EpochCheckExact(c, s);
    if i :| HeldAt(s, i, e) {
      AgeAt(c, s, i, e);
      if Turns(c, s) && !s.recent[i] {
        assert forall j :: 0 <= j < c.size && s.table[j] == e ==> j == i;
        AgeNone(t, e);
      } else {
        assert HeldAt(t, i, e);
        AgeAt(c, t, i, e);
      }
    } else {
      forall i | 0 <= i < c.size && t.table[i] == e ensures t.garbage[i] { assert !HeldAt(s, i, e); }
      AgeNone(t, e);
    }
  }

  // ---------------------------------------------------------------- inserting and erasing

  function Given(recent: bool): Age { if recent then Recent else Old }

  /** What storing e does to the age of x: the one pushed out by the kick limit is gone, e has its flag, the rest stays. */
  ghost predicate AgesAfter(s: State, e: Element, recent: bool, r: (State, Loss), x: Element) {
    AgeOf(r.0, x) == if r.1 == RanOut(x) then Gone else if x == e then Given(recent) else AgeOf(s, x)
  }

  /** One element is written over a slot, which leaves the others alone. */
  lemma WriteAges(c: Config, s: State, t: State, l: U32, e: Element, recent: bool, x: Element)
    requires Inv(c, s) && Inv(c, t) && l < c.size && x != NONE
    requires t.table == s.table[l := e] && t.recent == s.recent[l := recent] && t.garbage == s.garbage[l := false]
    requires x != e ==> s.garbage[l] || s.table[l] != x
    ensures AgeOf(t, x) == if x == e then Given(recent) else AgeOf(s, x)
  {
    if x == e {
      assert HeldAt(t, l, x);
      AgeAt(c, t, l, x);
    } else {
      AgeKept(c, s, t, l, x);
    }
  }

  lemma {:induction false} KickAges(c: Config, s: State, e: Element, last: U32, recent: bool, depth: nat, x: Element)
    requires Inv(c, s) && (e == NONE || e !in s.table) && x != NONE
    ensures AgesAfter(s, e, recent, Kick(c, s, e, last, recent, depth), x)
    decreases depth
  {
    RoomFacts(c, s, e);
    KickKeeps(c, s, e, last, recent, depth);
    var locs, k := Locs(c, e), Room(c, s, e);
    if depth == 0 {
      if x == e { AgeNone(s, e); }
    } else if k < 8 {
      WriteAges(c, s, Put(s, locs[k], e, recent), locs[k], e, recent, x);
    } else {
      KickOnAges(c, s, e, last, recent, depth, x);
    }
  }

  lemma {:induction false} KickOnAges(c: Config, s: State, e: Element, last: U32, recent: bool, depth: nat, x: Element)
    requires Inv(c, s) && (e == NONE || e !in s.table) && x != NONE && depth > 0 && Room(c, s, e) == 8
    ensures AgesAfter(s, e, recent, Kick(c, s, e, last, recent, depth), x)
    decreases depth, 0
  {
    RoomFacts(c, s, e);
    var l := NextLoc(Locs(c, e), last);
    var t, y := Swap(s, l, e, recent), s.table[l];
    SwapKeeps(c, s, l, e, recent);
    assert t.garbage == s.garbage[l := false];
    KickAges(c, t, y, l, s.recent[l], depth - 1, x);
    if x == y {
      assert HeldAt(s, l, x);
      AgeAt(c, s, l, x);
    } else {
      WriteAges(c, s, t, l, e, recent, x);
    }
  }

  /** Inserting makes an element recent, new or not; the others age if the epoch turns. */
  lemma InsertAges(c: Config, s: State, e: Element, x: Element)
    requires Inv(c, s) && Bounded(c, s) && x != NONE
    ensures var r := Insert(c, s, e);
            AgeOf(r.0, x) == if r.1 == RanOut(x) then Gone else if x == e then Recent
                             else if Turns(c, s) then AgeOf(s, x).Older() else AgeOf(s, x)
  {
    EpochCheckKeeps(c, s);
    TurnoverAges(c, s, x);
    InsertExact(c, s, e);
    var t := EpochCheck(c, s);
    ContainsScans(c, t, e);
    var k := Find(c, t, e);
    if k < 8 {
      var l := Locs(c, e)[k];
      WriteAges(c, t, Put(t, l, e, true), l, e, true, x);
    } else {
      assert e == NONE || e !in t.table;
      KickAges(c, t, e, INVALID, true, c.depth, x);
    }
  }

  lemma ContainsAges(c: Config, s: State, e: Element, erase: bool, x: Element)
    requires Inv(c, s) && Bounded(c, s) && x != NONE
    ensures AgeOf(Contains(c, s, e, erase).0, x) == if erase && x == e then Gone else AgeOf(s, x)
  {
    var t := Contains(c, s, e, erase).0;
    ContainsKeeps(c, s, e, erase);
    ContainsScans(c, s, e);
    if erase && x == e {
      AgeIsLive(t, x);
    } else if t != s {
      var l := Locs(c, e)[Find(c, s, e)];
      assert t.garbage == s.garbage[l := true];
      AgeKept(c, s, t, l, x);
    }
  }

  // ---------------------------------------------------------------- ages told from what happens

  /** What a call means for one element: it is erased or pushed out, it is inserted, the epoch turns. */
  datatype Event = Event(ended: bool, inserted: bool, turned: bool)

  function Next(age: Age, e: Event): Age {
    if e.ended then Gone else if e.inserted then Recent else if e.turned then age.Older() else age
  }

  function Ages(es: seq<Event>): Age {
    if es == [] then Gone else Next(Ages(es[..|es| - 1]), es[|es| - 1])
  }

  /** How often the epoch turns from event n on. */
  function Turnovers(es: seq<Event>, n: nat): nat {
    if |es| <= n then 0 else Turnovers(es[..|es| - 1], n) + if es[|es| - 1].turned then 1 else 0
  }

  /** Inserted by event n and not ended since. */
  predicate Spared(es: seq<Event>, n: nat) {
    n < |es| && es[n].inserted && forall j :: n <= j < |es| ==> !es[j].ended
  }

  /** The age that an insert so many turnovers ago has left. */
  function AgeAfter(turns: nat): Age { if turns == 0 then Recent else if turns == 1 then Old else Gone }

  /** An element inserted and spared since is recent before the first turnover, old up to the second and gone from then
      on, unless it is inserted again. */
  lemma {:induction false} AgesOut(es: seq<Event>, n: nat)
    requires Spared(es, n) && forall j :: n < j < |es| ==> !es[j].inserted
    ensures Ages(es) == AgeAfter(Turnovers(es, n + 1))
  {
    if n < |es| - 1 { AgesOut(es[..|es| - 1], n); }
  }

  /** Inserted again or not, it lives as long as the epoch has turned at most once. */
  lemma {:induction false} LivesThroughOneTurnover(es: seq<Event>, n: nat)
    requires Spared(es, n)
    ensures Turnovers(es, n + 1) == 0 ==> Ages(es) == Recent
    ensures Turnovers(es, n + 1) <= 1 ==> Ages(es) != Gone
  {
    if n < |es| - 1 { LivesThroughOneTurnover(es[..|es| - 1], n); }
  }

  // ---------------------------------------------------------------- whole runs

  ghost predicate TurnsAt(c: Config, s: State, op: Op)
    requires Shape(c, s)
  {
    op.InsertOp? && Turns(c, s)
  }

  /** An erase or the kick limit ends x; inserts of other elements may turn the epoch. */
  ghost function Happens(c: Config, s: State, op: Op, x: Element): Event
    requires Shape(c, s)
  {
    Event(op == ContainsOp(x, true) || Step(c, s, op).1 == RanOut(x), op == InsertOp(x), TurnsAt(c, s, op))
  }

  ghost function Events(c: Config, ops: seq<Op>, x: Element): (es: seq<Event>)
    requires c.Ok()
    ensures |es| == |ops|
  {
    seq(|ops|, j requires 0 <= j < |ops| => Happens(c, Run(c, ops[..j]), ops[j], x))
  }

  lemma EventsBefore(c: Config, ops: seq<Op>, x: Element)
    requires c.Ok() && ops != []
    ensures var m := |ops| - 1;
            Events(c, ops, x)[..m] == Events(c, ops[..m], x) && Events(c, ops, x)[m] == Happens(c, Run(c, ops[..m]), ops[m], x)
  {
    var m := |ops| - 1;
    assert forall j :: 0 <= j < m ==> ops[..m][..j] == ops[..j];
  }

  lemma StepAges(c: Config, s: State, op: Op, x: Element)
    requires Inv(c, s) && Bounded(c, s) && x != NONE
    ensures AgeOf(Step(c, s, op).0, x) == Next(AgeOf(s, x), Happens(c, s, op, x))
  {
    match op
    case InsertOp(e) => InsertAges(c, s, e, x);
    case ContainsOp(e, erase) => ContainsAges(c, s, e, erase, x);
  }

  lemma {:induction false} AgesTold(c: Config, ops: seq<Op>, x: Element)
    requires c.Ok() && x != NONE
    ensures AgeOf(Run(c, ops), x) == Ages(Events(c, ops, x))
  {
    if ops == [] {
      SetupOk(c);
      AgeNone(Setup(c), x);
    } else {
      var m := |ops| - 1;
      RunKeeps(c, ops[..m]);
      AgesTold(c, ops[..m], x);
      StepAges(c, Run(c, ops[..m]), ops[m], x);
      EventsBefore(c, ops, x);
    }
  }

  /** After every run the flags tell the age, and an element that is not gone is live and found. */
  lemma RunAges(c: Config, ops: seq<Op>, x: Element)
    requires c.Ok() && x != NONE
    ensures AgeOf(Run(c, ops), x) == Ages(Events(c, ops, x))
    ensures LiveIn(Run(c, ops), x) <==> Ages(Events(c, ops, x)) != Gone
    ensures LiveIn(Run(c, ops), x) ==> Contains(c, Run(c, ops), x, false).1
  {
    RunKeeps(c, ops);
    AgesTold(c, ops, x);
    AgeIsLive(Run(c, ops), x);
    ContainsScans(c, Run(c, ops), x);
  }

  function Inserts(ops: seq<Op>, n: nat): nat {
    if |ops| <= n then 0 else Inserts(ops[..|ops| - 1], n) + if ops[|ops| - 1].InsertOp? then 1 else 0
  }

  // ---------------------------------------------------------------- how soon the epoch may turn

  lemma EpochGrows(c: Config, s: State, e: Element)
    requires Inv(c, s) && Bounded(c, s)
    ensures Epoch(Insert(c, s, e).0) <= 1 + if Turns(c, s) then 0 else Epoch(s)
  {
    EpochCheckKeeps(c, s);
    EpochCheckExact(c, s);
    var t := EpochCheck(c, s);
    if Turns(c, s) { LiveNone(t.recent, t.garbage, c.size); }
    ContainsScans(c, t, e);
    var k := Find(c, t, e);
    if k < 8 {
      EpochChanged(t, Put(t, Locs(c, e)[k], e, true), Locs(c, e)[k]);
    } else {
      KickExact(c, t, e, INVALID, true, c.depth);
    }
  }

  lemma ErasingShrinks(c: Config, s: State, e: Element, erase: bool)
    requires Shape(c, s)
    ensures Epoch(Contains(c, s, e, erase).0) <= Epoch(s)
  {
    var t := Contains(c, s, e, erase).0;
    if t != s { EpochChanged(s, t, Locs(c, e)[Find(c, s, e)]); }
  }

  lemma StepGrows(c: Config, s: State, op: Op)
    requires Inv(c, s) && Bounded(c, s)
    ensures Epoch(Step(c, s, op).0) <= (if op.InsertOp? then 1 else 0) + (if TurnsAt(c, s, op) then 0 else Epoch(s))
    ensures TurnsAt(c, s, op) ==> op.InsertOp? && c.EpochSize() <= Epoch(s)
  {
    LiveCounts(s, |s.recent|);
    match op
    case InsertOp(e) => EpochGrows(c, s, e);
    case ContainsOp(e, erase) => ErasingShrinks(c, s, e, erase);
  }

  lemma RunGrows(c: Config, ops: seq<Op>)
    requires c.Ok() && ops != []
    ensures var s, op := Run(c, ops[..|ops| - 1]), ops[|ops| - 1];
            && Epoch(Run(c, ops)) <= (if op.InsertOp? then 1 else 0) + (if TurnsAt(c, s, op) then 0 else Epoch(s))
            && (TurnsAt(c, s, op) ==> op.InsertOp? && c.EpochSize() <= Epoch(s))
  {
    var m := |ops| - 1;
    RunKeeps(c, ops[..m]);
    StepGrows(c, Run(c, ops[..m]), ops[m]);
  }

  lemma EventsStep(c: Config, ops: seq<Op>, x: Element, n: nat)
    requires c.Ok() && n < |ops|
    ensures var m := |ops| - 1;
            Turnovers(Events(c, ops, x), n)
              == Turnovers(Events(c, ops[..m], x), n) + if TurnsAt(c, Run(c, ops[..m]), ops[m]) then 1 else 0
  {
    EventsBefore(c, ops, x);
  }

  ghost predicate PaidBy(c: Config, ops: seq<Op>, x: Element, n: nat)
    requires c.Ok()
  {
    var turns := Turnovers(Events(c, ops, x), n);
    turns > 0 ==> Paid(c.EpochSize(), turns, Epoch(Run(c, ops)), Inserts(ops, n))
  }

  lemma PaidByStep(c: Config, ops: seq<Op>, x: Element, n: nat)
    requires c.Ok() && n < |ops| && PaidBy(c, ops[..|ops| - 1], x, n)
    ensures PaidBy(c, ops, x, n)
  {
    var m := |ops| - 1;
    EventsStep(c, ops, x, n);
    RunGrows(c, ops);
    PaidStep(c.EpochSize(), Turnovers(Events(c, ops[..m], x), n), Epoch(Run(c, ops[..m])), Inserts(ops[..m], n),
             Epoch(Run(c, ops)), TurnsAt(c, Run(c, ops[..m]), ops[m]), ops[m].InsertOp?);
  }

  /** Between two turnovers there are at least as many inserts as the epoch holds. */
  lemma {:induction false} TurnoversCost(c: Config, ops: seq<Op>, x: Element, n: nat)
    requires c.Ok()
    ensures PaidBy(c, ops, x, n)
  {
    if n < |ops| {
      TurnoversCost(c, ops[..|ops| - 1], x, n);
      PaidByStep(c, ops, x, n);
    }
  }

  /** What all turnovers but the first take. */
  function Due(size: nat, turns: nat): nat { if turns <= 1 then 0 else Due(size, turns - 1) + size }

  /** All full epochs but the first, and the current one, were filled by inserts. */
  predicate Paid(size: nat, turns: nat, epoch: nat, inserts: nat) {
    Due(size, turns) + epoch <= inserts && Due(size, turns) < inserts
  }

  lemma PaidStep(size: nat, turns: nat, epoch: nat, inserts: nat, epoch': nat, turned: bool, inserted: bool)
    requires turns > 0 ==> Paid(size, turns, epoch, inserts)
    requires epoch' <= (if inserted then 1 else 0) + (if turned then 0 else epoch)
    requires turned ==> inserted && size <= epoch
    ensures var turns' := if turned then turns + 1 else turns;
            turns' > 0 ==> Paid(size, turns', epoch', if inserted then inserts + 1 else inserts)
  {
  }

  lemma PaidTwice(size: nat, turns: nat, epoch: nat, inserts: nat)
    requires turns >= 2 && Paid(size, turns, epoch, inserts)
    ensures size < inserts
  {
    assert Due(size, turns) >= size;
  }

  /** Main result: an inserted element is live, and so found, after as many further inserts as the epoch holds, unless it
      was erased or fell victim to the kick limit. */
  lemma InsertedStays(c: Config, ops: seq<Op>, n: nat, x: Element)
    requires c.Ok() && x != NONE && n < |ops| && ops[n] == InsertOp(x)
    requires forall j :: n <= j < |ops| ==> ops[j] != ContainsOp(x, true) && Step(c, Run(c, ops[..j]), ops[j]).1 != RanOut(x)
    requires Inserts(ops, n + 1) <= c.EpochSize()
    ensures LiveIn(Run(c, ops), x) && Contains(c, Run(c, ops), x, false).1
  {
    var es := Events(c, ops, x);
    assert Spared(es, n);
    RunAges(c, ops, x);
    LivesThroughOneTurnover(es, n);
    TurnoversCost(c, ops, x, n + 1);
    var turns := Turnovers(es, n + 1);
    if turns >= 2 { PaidTwice(c.EpochSize(), turns, Epoch(Run(c, ops)), Inserts(ops, n + 1)); }
  }

  // ---------------------------------------------------------------- kicking

  predicate HasRoom(c: Config, s: State, e: Element)
    requires Shape(c, s)
  {
    exists l :: l in Locs(c, e) && s.garbage[l]
  }

  lemma RoomIs(c: Config, s: State, e: Element)
    requires Shape(c, s)
    ensures Room(c, s, e) < 8 <==> HasRoom(c, s, e)
  {
    RoomFacts(c, s, e);
  }

  lemma KickedAside(c: Config, s: State, e: Element, last: U32, recent: bool, depth: nat)
    requires Shape(c, s) && depth >= 2
    requires forall l <- Locs(c, e) :: HasRoom(c, s, s.table[l])
    ensures Kick(c, s, e, last, recent, depth).1.Overwritten?
  {
    KickUnfolds(c, s, e, last, recent, depth);
    if Room(c, s, e) == 8 {
      var l := NextLoc(Locs(c, e), last);
      var t := Swap(s, l, e, recent);
      var m :| m in Locs(c, s.table[l]) && s.garbage[m];
      assert HasRoom(c, t, s.table[l]);
      RoomIs(c, t, s.table[l]);
      KickUnfolds(c, t, s.table[l], l, s.recent[l], depth - 1);
    }
  }

  /** With two kicks or more, an element goes in at the expense of no live one if each of those in its way can step aside. */
  lemma InsertKicksAside(c: Config, s: State, e: Element)
    requires Inv(c, s) && Bounded(c, s) && c.depth >= 2 && e != NONE && e !in s.table
    requires forall l <- Locs(c, e) :: HasRoom(c, s, s.table[l])
    ensures var r := Insert(c, s, e);
            r.1.Overwritten? && forall x :: x != NONE && !Turns(c, s) && AgeOf(s, x) != Gone ==> AgeOf(r.0, x) != Gone
  {
    var t := EpochCheck(c, s);
    EpochCheckKeeps(c, s);
    InsertExact(c, s, e);
    ContainsScans(c, s, e);
    FindTable(c, s, t, e);
    forall l | l in Locs(c, e) ensures HasRoom(c, t, t.table[l]) {
      assert HasRoom(c, s, s.table[l]);
      var m :| m in Locs(c, s.table[l]) && s.garbage[m];
      assert t.garbage[m];
    }
    KickedAside(c, t, e, INVALID, true, c.depth);
    forall x | x != NONE && !Turns(c, s) && AgeOf(s, x) != Gone ensures AgeOf(Insert(c, s, e).0, x) != Gone {
      InsertAges(c, s, e, x);
    }
  }

  // ---------------------------------------------------------------- slots

  /** The k-th slot is the k-th hash, read as a fraction of 2^32, of the table. */
  lemma LocsScale(c: Config, e: Element, k: int)
    requires c.Ok() && 0 <= k < 8
    ensures var l := Locs(c, e)[k];
            l * 0x1_0000_0000 <= c.hash(k, e) * c.size < (l + 1) * 0x1_0000_0000
  {
  }

  lemma {:induction false} IndexOfIs(locs: seq<U32>, k: nat)
    requires k < |locs| && forall i :: 0 <= i < k ==> locs[i] != locs[k]
    ensures IndexOf(locs, locs[k]) == k
  {
    if k > 0 { IndexOfIs(locs[1..], k - 1); }
  }

  lemma NextIs(locs: seq<U32>, k: nat)
    requires |locs| == 8 && k < 8 && forall i :: 0 <= i < k ==> locs[i] != locs[k]
    ensures NextLoc(locs, locs[k]) == locs[if k == 7 then 0 else k + 1]
  {
    IndexOfIs(locs, k);
  }

  lemma NextIsSecond(locs: seq<U32>, last: U32)
    requires |locs| == 8 && last !in locs
    ensures NextLoc(locs, last) == locs[1]
  {
    assert IndexOf(locs, last) == 8;
  }

  /** Where the eight slots differ, each kick moves on by one from the slot just used; the first goes to the second slot. */
  lemma NextLocCycles(c: Config, e: Element, k: nat)
    requires c.Ok() && k < 8
    requires forall i :: 0 <= i < k ==> Locs(c, e)[i] != Locs(c, e)[k]
    ensures var locs := Locs(c, e);
            NextLoc(locs, locs[k]) == locs[if k == 7 then 0 else k + 1] && NextLoc(locs, INVALID) == locs[1]
  {
    NextIs(Locs(c, e), k);
    NextIsSecond(Locs(c, e), INVALID);
  }
}
