/** The layered coin cache (`CCoinsViewCache`, src/coins.cpp) refines a stack of flat maps.

  A `View` is one layer together with everything below it: while a cache is in use its base
  is reached only through it, so the base is part of its value. The bottom is the database.
 */
module CoinsStack {
  import opened Basics
  import opened TxCoins

  type Key = nat   // a 256-bit hash

  datatype CoinEntry = CoinEntry(coins: Coins, isDirty: bool, isFresh: bool)
  datatype NullEntry = NullEntry(entered: bool, isDirty: bool)

  type CoinMap = map<Key, CoinEntry>
  type NullMap = map<Key, NullEntry>

  datatype View =
    | Db(dbCoins: map<Key, Coins>, dbNulls: set<Key>)
    | Cache(base: View, coins: CoinMap, nulls: NullMap)

  // ----- what a layer shows

  function Seen(c: Coins): Option<Coins> {
    if c.IsPruned() then None else Some(c)
  }

  /** The coins a reader of this layer sees; a pruned entry is as good as none. */
  function CoinAt(v: View, k: Key): Option<Coins> {
    match v
    case Db(c, _) => if k in c then Seen(c[k]) else None
    case Cache(base, coins, _) => if k in coins then Seen(coins[k].coins) else CoinAt(base, k)
  }

  function NullAt(v: View, k: Key): bool {
    match v
    case Db(_, n) => k in n
    case Cache(base, _, nulls) => if k in nulls then nulls[k].entered else NullAt(base, k)
  }

  // ----- reads, which fill the caches on the way

  /** FetchCoins (lines 136-152), and with it GetCoins. */
  function Fetch(v: View, k: Key): (View, Option<Coins>) {
    match v
    case Db(c, _) => (v, if k in c then Some(c[k]) else None)
    case Cache(base, coins, _) =>
      if k in coins then (v, Some(coins[k].coins))
      else
        var (base', r) := Fetch(base, k);
        match r
        case None => (v.(base := base'), None)
        case Some(c) => (v.(base := base', coins := coins[k := CoinEntry(c, false, c.IsPruned())]), r)
  }

  /** GetNullifier (lines 224-247). */
  function FetchNull(v: View, k: Key): (View, bool) {
    match v
    case Db(_, n) => (v, k in n)
    case Cache(base, _, nulls) =>
      if k in nulls then (v, nulls[k].entered)
      else
        var (base', r) := FetchNull(base, k);
        (v.(base := base', nulls := nulls[k := NullEntry(r, false)]), r)
  }

  // ----- writes

  /** ModifyCoins (lines 506-525) up to handing out the reference. */
  function Open(v: View, k: Key): (r: View)
    requires v.Cache?
    ensures r.Cache? && k in r.coins
  {
    if k in v.coins then v.(coins := v.coins[k := v.coins[k].(isDirty := true)])
    else
      var (base', r) := Fetch(v.base, k);
      match r
      case None => v.(base := base', coins := v.coins[k := CoinEntry(NO_COINS, true, true)])
      case Some(c) => v.(base := base', coins := v.coins[k := CoinEntry(c, true, c.IsPruned())])
  }

  /** The CCoinsModifier destructor (lines 1041-1053), the caller having stored c. */
  function Close(v: View, k: Key, c: Coins): (r: View)
    requires v.Cache? && k in v.coins
    ensures r.Cache?
  {
    var clean := Cleanup(c);
    if v.coins[k].isFresh && clean.IsPruned() then v.(coins := v.coins - {k})
    else v.(coins := v.coins[k := v.coins[k].(coins := clean)])
  }

  function Modify(v: View, k: Key, c: Coins): View
    requires v.Cache?
  {
    Close(Open(v, k), k, c)
  }

  /** One nullifier of SetNullifiers (lines 455-468). */
  function SetNull(v: View, k: Key, spent: bool): View
    requires v.Cache?
  {
    v.(nulls := v.nulls[k := NullEntry(spent, true)])
  }

  // ----- BatchWrite

  /** What lines 677-710 make of key k in the parent's map. */
  function MergedCoin(child: CoinMap, parent: CoinMap, k: Key): Option<CoinEntry> {
    var was := if k in parent then Some(parent[k]) else None;
    if k !in child || !child[k].isDirty then was
    else if was.None? then
      if child[k].coins.IsPruned() then None else Some(CoinEntry(child[k].coins, true, true))
    else if was.value.isFresh && child[k].coins.IsPruned() then None
    else Some(CoinEntry(child[k].coins, true, was.value.isFresh))
  }

  function MergeCoins(child: CoinMap, parent: CoinMap): CoinMap {
    map k | k in child.Keys + parent.Keys && MergedCoin(child, parent, k).Some? ::
      MergedCoin(child, parent, k).value
  }

  /** What BatchWriteNullifiers (lines 587-607) makes of key k. */
  function MergedNull(child: NullMap, parent: NullMap, k: Key): Option<NullEntry> {
    var was := if k in parent then Some(parent[k]) else None;
    if k !in child || !child[k].isDirty then was
    else if was.None? || was.value.entered != child[k].entered then Some(NullEntry(child[k].entered, true))
    else was
  }

  function MergeNulls(child: NullMap, parent: NullMap): NullMap {
    map k | k in child.Keys + parent.Keys && MergedNull(child, parent, k).Some? ::
      MergedNull(child, parent, k).value
  }

  /** The database's own BatchWrite (lines 250-261 of src/txdb.cpp). */
  function DbCoins(child: CoinMap, db: map<Key, Coins>): map<Key, Coins> {
    map k | k in child.Keys + db.Keys &&
            (if k in child && child[k].isDirty then !child[k].coins.IsPruned() else k in db) ::
      if k in child && child[k].isDirty then child[k].coins else db[k]
  }

  function DbNulls(child: NullMap, db: set<Key>): set<Key> {
    set k | k in child.Keys + db && (if k in child && child[k].isDirty then child[k].entered else k in db)
  }

  function Absorb(parent: View, coins: CoinMap, nulls: NullMap): View {
    match parent
    case Db(c, n) => Db(DbCoins(coins, c), DbNulls(nulls, n))
    case Cache(b, c, n) => Cache(b, MergeCoins(coins, c), MergeNulls(nulls, n))
  }

  /** Flush (lines 729-741): the parent takes the changes, this layer starts over empty. */
  function FlushView(v: View): View
    requires v.Cache?
  {
    Cache(Absorb(v.base, v.coins, v.nulls), map[], map[])
  }

  // ----- the invariant

  /** What the flags of the entry for k promise about the parent. */
  predicate CoinEntryOk(base: View, k: Key, e: CoinEntry) {
    && e.coins.IsClean()
    && (e.isFresh ==> CoinAt(base, k) == None)
    && (!e.isDirty ==> Seen(e.coins) == CoinAt(base, k))
    && (!e.isFresh && base.Cache? ==> k in base.coins)
  }

  ghost predicate Ok(v: View) {
    match v
    case Db(c, _) => forall k <- c :: c[k].IsClean() && !c[k].IsPruned()
    case Cache(base, coins, nulls) =>
      && Ok(base)
      && (forall k <- coins :: CoinEntryOk(base, k, coins[k]))
      && (forall k <- nulls :: !nulls[k].isDirty ==> nulls[k].entered == NullAt(base, k))
  }

  /** Same content at every layer. */
  ghost predicate Same(v: View, w: View) {
    && (forall k :: CoinAt(v, k) == CoinAt(w, k))
    && (forall k :: NullAt(v, k) == NullAt(w, k))
    && (v.Cache? <==> w.Cache?)
    && (v.Cache? ==> Same(v.base, w.base))
  }

  // ----- reads are invisible

  lemma {:induction false} FetchKeeps(v: View, k: Key)
    requires Ok(v)
    ensures var (v', r) := Fetch(v, k);
            && Ok(v') && Same(v, v')
            && (if r.None? then CoinAt(v, k) == None else r.value.IsClean() && CoinAt(v, k) == Seen(r.value))
            && (v.Cache? ==> v.coins.Keys <= v'.coins.Keys && (r.Some? ==> k in v'.coins))
  {
    if v.Cache? && k !in v.coins {
      FetchKeeps(v.base, k);
      var v' := Fetch(v, k).0;
      forall j ensures CoinAt(v, j) == CoinAt(v', j) && NullAt(v, j) == NullAt(v', j) {
        assert CoinAt(v.base, j) == CoinAt(v'.base, j) && NullAt(v.base, j) == NullAt(v'.base, j);
      }
    } else {
      SameRefl(v);
    }
  }

  lemma {:induction false} SameRefl(v: View)
    ensures Same(v, v)
  {
    if v.Cache? { SameRefl(v.base); }
  }

  lemma {:induction false} FetchNullKeeps(v: View, k: Key)
    requires Ok(v)
    ensures var (v', r) := FetchNull(v, k);
            && Ok(v') && Same(v, v') && r == NullAt(v, k)
            && (v.Cache? ==> v'.coins == v.coins)
  {
    if v.Cache? && k !in v.nulls {
      FetchNullKeeps(v.base, k);
      var v' := FetchNull(v, k).0;
      forall j ensures CoinAt(v, j) == CoinAt(v', j) && NullAt(v, j) == NullAt(v', j) {
        assert CoinAt(v.base, j) == CoinAt(v'.base, j) && NullAt(v.base, j) == NullAt(v'.base, j);
      }
    } else {
      SameRefl(v);
    }
  }

  /** HaveCoins (lines 536-543) tests for an empty vout only. */
  function HaveCoins(v: View, k: Key): bool {
    var r := Fetch(v, k).1;
    r.Some? && r.value.vout != []
  }

  lemma HaveCoinsIsVisible(v: View, k: Key)
    requires Ok(v)
    ensures HaveCoins(v, k) <==> CoinAt(v, k).Some?
  {
    FetchKeeps(v, k);
    var r := Fetch(v, k).1;
    if r.Some? { CleanPruned(r.value); }
  }

  // ----- writes change one key of one layer

  lemma OpenKeeps(v: View, k: Key)
    requires v.Cache? && Ok(v)
    ensures var o := Open(v, k);
            && Ok(o) && Same(v.base, o.base) && o.nulls == v.nulls
            && o.coins[k].isDirty && Seen(o.coins[k].coins) == CoinAt(v, k)
            && o.coins.Keys == v.coins.Keys + {k} && forall j <- v.coins :: j != k ==> o.coins[j] == v.coins[j]
  {
    var o := Open(v, k);
    if k in v.coins {
      SameRefl(v.base);
    } else {
      FetchKeeps(v.base, k);
      forall j | j in o.nulls && !o.nulls[j].isDirty ensures o.nulls[j].entered == NullAt(o.base, j) {
        assert NullAt(v.base, j) == NullAt(o.base, j);
      }
    }
  }

  /** ModifyCoins and the destructor of its result store the cleaned-up coins under k, and nothing else. */
  lemma ModifyKeeps(v: View, k: Key, c: Coins)
    requires v.Cache? && Ok(v)
    ensures var v' := Modify(v, k, c);
            && v'.Cache? && Ok(v') && Same(v.base, v'.base)
            && CoinAt(v', k) == Seen(Cleanup(c))
            && (forall j :: j != k ==> CoinAt(v', j) == CoinAt(v, j))
            && (forall j :: NullAt(v', j) == NullAt(v, j))
  {
    OpenKeeps(v, k);
    var o, v' := Open(v, k), Modify(v, k, c);
    forall j | j != k ensures CoinAt(v', j) == CoinAt(v, j) {
      assert CoinAt(v.base, j) == CoinAt(o.base, j);
    }
    forall j ensures NullAt(v', j) == NullAt(v, j) {
      assert NullAt(v.base, j) == NullAt(o.base, j);
    }
  }

  /** Whether the entry for k is, or would be, fresh: the base shows nothing there. */
  predicate WouldBeFresh(v: View, k: Key)
    requires v.Cache?
  {
    if k in v.coins then v.coins[k].isFresh else CoinAt(v.base, k).None?
  }

  lemma OpenExact(v: View, k: Key)
    requires v.Cache? && Ok(v)
    ensures var o := Open(v, k);
            o.nulls == v.nulls && o.coins == v.coins[k := CoinEntry(o.coins[k].coins, true, WouldBeFresh(v, k))]
  {
    if k !in v.coins { FetchKeeps(v.base, k); }
  }

  lemma CloseExact(o: View, k: Key, c: Coins, had: CoinMap, x: CoinEntry)
    requires o.Cache? && o.coins == had[k := x]
    ensures var r := Close(o, k, c);
            r.nulls == o.nulls && r.coins == if x.isFresh && c.IsPruned() then had - {k} else had[k := x.(coins := Cleanup(c))]
  {
    assert had[k := x] - {k} == had - {k};
  }

  /** The entry that modifying leaves: dirty, cleaned up, and fresh if it was or the base shows nothing; none at all if it is
      fresh and nothing is left. */
  lemma ModifyExact(v: View, k: Key, c: Coins)
    requires v.Cache? && Ok(v)
    ensures var v' := Modify(v, k, c);
            && v'.Cache? && v'.nulls == v.nulls
            && v'.coins == if WouldBeFresh(v, k) && c.IsPruned() then v.coins - {k}
                           else v.coins[k := CoinEntry(Cleanup(c), true, WouldBeFresh(v, k))]
  {
    OpenExact(v, k);
    var o := Open(v, k);
    CloseExact(o, k, c, v.coins, o.coins[k]);
  }

  lemma SetNullKeeps(v: View, k: Key, spent: bool)
    requires v.Cache? && Ok(v)
    ensures var v' := SetNull(v, k, spent);
            && Ok(v') && v'.base == v.base
            && NullAt(v', k) == spent
            && (forall j :: j != k ==> NullAt(v', j) == NullAt(v, j))
            && (forall j :: CoinAt(v', j) == CoinAt(v, j))
  {
  }

  // ----- Flush

  /** The assertion of line 686 never fires: a changed entry the parent has none for is marked FRESH. */
  lemma FreshAssertHolds(v: View, k: Key)
    requires v.Cache? && Ok(v) && v.base.Cache?
    requires k in v.coins && v.coins[k].isDirty && k !in v.base.coins
    ensures v.coins[k].isFresh
  {
    assert CoinEntryOk(v.base, k, v.coins[k]);
  }

  lemma MergedCoinOk(v: View, k: Key)
    requires v.Cache? && Ok(v) && v.base.Cache?
    ensures var m := MergedCoin(v.coins, v.base.coins, k);
            if m.Some? then CoinEntryOk(v.base.base, k, m.value) && Seen(m.value.coins) == CoinAt(v, k)
            else CoinAt(v.base.base, k) == CoinAt(v, k)
  {
    if k in v.coins { assert CoinEntryOk(v.base, k, v.coins[k]); }
    if k in v.base.coins { assert CoinEntryOk(v.base.base, k, v.base.coins[k]); }
  }

  lemma BatchWriteCache(v: View)
    requires v.Cache? && Ok(v) && v.base.Cache?
    ensures var p := Absorb(v.base, v.coins, v.nulls);
            && Ok(p) && p.Cache? && p.base == v.base.base
            && (forall k :: CoinAt(p, k) == CoinAt(v, k)) && (forall k :: NullAt(p, k) == NullAt(v, k))
  {
    var p := Absorb(v.base, v.coins, v.nulls);
    forall k ensures CoinAt(p, k) == CoinAt(v, k) {
      MergedCoinOk(v, k);
    }
    forall k | k in p.coins ensures CoinEntryOk(p.base, k, p.coins[k]) {
      MergedCoinOk(v, k);
    }
  }

  lemma BatchWriteDb(v: View)
    requires v.Cache? && Ok(v) && v.base.Db?
    ensures var p := Absorb(v.base, v.coins, v.nulls);
            && Ok(p) && p.Db?
            && (forall k :: CoinAt(p, k) == CoinAt(v, k)) && (forall k :: NullAt(p, k) == NullAt(v, k))
  {
    var p := Absorb(v.base, v.coins, v.nulls);
    forall k ensures CoinAt(p, k) == CoinAt(v, k) && NullAt(p, k) == NullAt(v, k) {
      if k in v.coins { assert CoinEntryOk(v.base, k, v.coins[k]); }
    }
    forall k | k in p.dbCoins ensures p.dbCoins[k].IsClean() && !p.dbCoins[k].IsPruned() {
      if k in v.coins { assert CoinEntryOk(v.base, k, v.coins[k]); }
    }
  }

  /** Flush hands this layer's content to the parent, changes nothing further down, and shows the same afterwards. */
  lemma FlushKeeps(v: View)
    requires v.Cache? && Ok(v)
    ensures var v' := FlushView(v);
            && Ok(v')
            && (forall k :: CoinAt(v'.base, k) == CoinAt(v, k) && CoinAt(v', k) == CoinAt(v, k))
            && (forall k :: NullAt(v'.base, k) == NullAt(v, k) && NullAt(v', k) == NullAt(v, k))
            && (v.base.Cache? <==> v'.base.Cache?)
            && (v.base.Cache? ==> v'.base.base == v.base.base)
  {
    if v.base.Cache? { BatchWriteCache(v); } else { BatchWriteDb(v); }
  }

  // ----- whole runs against a stack of flat maps

  datatype Flat = Flat(coins: map<Key, Coins>, nulls: set<Key>)

  function Lookup(f: Flat, k: Key): Option<Coins> {
    if k in f.coins then Some(f.coins[k]) else None
  }

  ghost predicate Matches(v: View, f: Flat) {
    && (forall k :: CoinAt(v, k) == Lookup(f, k))
    && (forall k :: NullAt(v, k) == (k in f.nulls))
  }

  /** Every layer shows exactly its flat map; the bottom of the stack is stack[0]. */
  ghost predicate Agree(v: View, stack: seq<Flat>)
    decreases v
  {
    && stack != [] && Matches(v, stack[|stack| - 1])
    && (if v.Db? then |stack| == 1 else Agree(v.base, stack[..|stack| - 1]))
  }

  datatype Op =
    | Get(k: Key)
    | Have(k: Key)
    | GetNullifier(k: Key)
    | Write(k: Key, c: Coins)           // ModifyCoins, storing c
    | SetNullifier(k: Key, spent: bool)
    | FlushTop
    | Push                              // a new cache on top
    | Drop                              // the top cache is destroyed

  datatype Obs = Silent | Coin(r: Option<Coins>) | Bit(b: bool)

  predicate Enabled(depth: nat, op: Op) {
    op.Get? || op.Have? || op.GetNullifier? || op.Push? || depth > 1
  }

  function Depth(v: View): nat { if v.Db? then 1 else 1 + Depth(v.base) }

  function Step(v: View, op: Op): (View, Obs)
    requires Enabled(Depth(v), op)
  {
    match op
    case Get(k) => (Fetch(v, k).0, Coin(var r := Fetch(v, k).1; if r.None? then None else Seen(r.value)))
    case Have(k) => (Fetch(v, k).0, Bit(HaveCoins(v, k)))
    case GetNullifier(k) => (FetchNull(v, k).0, Bit(FetchNull(v, k).1))
    case Write(k, c) => (Modify(v, k, c), Silent)
    case SetNullifier(k, spent) => (SetNull(v, k, spent), Silent)
    case FlushTop => (FlushView(v), Silent)
    case Push => (Cache(v, map[], map[]), Silent)
    case Drop => (v.base, Silent)
  }

  /** The same operation on flat maps: no caches, no flags. */
  function FlatStep(stack: seq<Flat>, op: Op): (r: (seq<Flat>, Obs))
    requires stack != [] && Enabled(|stack|, op)
    ensures r.0 != []
  {
    var n := |stack| - 1;
    var top := stack[n];
    match op
    case Get(k) => (stack, Coin(Lookup(top, k)))
    case Have(k) => (stack, Bit(k in top.coins))
    case GetNullifier(k) => (stack, Bit(k in top.nulls))
    case Write(k, c) =>
      var clean := Cleanup(c);
      (stack[n := top.(coins := if clean.IsPruned() then top.coins - {k} else top.coins[k := clean])], Silent)
    case SetNullifier(k, spent) =>
      (stack[n := top.(nulls := if spent then top.nulls + {k} else top.nulls - {k})], Silent)
    case FlushTop => (stack[n - 1 := top], Silent)
    case Push => (stack + [top], Silent)
    case Drop => (stack[..n], Silent)
  }

  lemma {:induction false} AgreeDepth(v: View, stack: seq<Flat>)
    requires Agree(v, stack)
    ensures Depth(v) == |stack|
    decreases v
  {
    if v.Cache? { AgreeDepth(v.base, stack[..|stack| - 1]); }
  }

  lemma {:induction false} AgreeSame(v: View, w: View, stack: seq<Flat>)
    requires Agree(v, stack) && Same(v, w)
    ensures Agree(w, stack)
    decreases v
  {
    if v.Cache? { AgreeSame(v.base, w.base, stack[..|stack| - 1]); }
  }

  lemma ReadRefines(v: View, stack: seq<Flat>, op: Op)
    requires Ok(v) && Agree(v, stack) && (op.Get? || op.Have? || op.GetNullifier?)
    ensures Ok(Step(v, op).0) && Agree(Step(v, op).0, stack)
    ensures Step(v, op).1 == FlatStep(stack, op).1
  {
    if op.GetNullifier? { FetchNullKeeps(v, op.k); } else { FetchKeeps(v, op.k); }
    if op.Have? { HaveCoinsIsVisible(v, op.k); }
    AgreeSame(v, Step(v, op).0, stack);
  }

  lemma WriteRefines(v: View, stack: seq<Flat>, op: Op)
    requires Ok(v) && Agree(v, stack) && v.Cache? && (op.Write? || op.SetNullifier?)
    requires |stack| > 1
    ensures Ok(Step(v, op).0) && Agree(Step(v, op).0, FlatStep(stack, op).0)
  {
    var n := |stack| - 1;
    var v', stack' := Step(v, op).0, FlatStep(stack, op).0;
    assert stack'[..n] == stack[..n];
    if op.Write? {
      ModifyKeeps(v, op.k, op.c);
      AgreeSame(v.base, v'.base, stack[..n]);
    } else {
      SetNullKeeps(v, op.k, op.spent);
    }
  }

  lemma FlushRefines(v: View, stack: seq<Flat>)
    requires Ok(v) && Agree(v, stack) && v.Cache?
    ensures |stack| > 1 && Ok(FlushView(v)) && Agree(FlushView(v), stack[|stack| - 2 := stack[|stack| - 1]])
  {
    AgreeDepth(v, stack);
    AgreeDepth(v.base, stack[..|stack| - 1]);
    FlushKeeps(v);
    var n := |stack| - 1;
    var stack' := stack[n - 1 := stack[n]];
    assert stack'[..n][..n - 1] == stack[..n][..n - 1];
    assert Matches(FlushView(v).base, stack'[..n][n - 1]);
    assert Matches(FlushView(v), stack'[n]);
  }

  lemma StepRefines(v: View, stack: seq<Flat>, op: Op)
    requires Ok(v) && Agree(v, stack) && Enabled(Depth(v), op)
    ensures Depth(v) == |stack|
    ensures Ok(Step(v, op).0) && Agree(Step(v, op).0, FlatStep(stack, op).0)
    ensures Step(v, op).1 == FlatStep(stack, op).1
  {
    AgreeDepth(v, stack);
    var n := |stack| - 1;
    match op
    case Get(_) => ReadRefines(v, stack, op);
    case Have(_) => ReadRefines(v, stack, op);
    case GetNullifier(_) => ReadRefines(v, stack, op);
    case Write(_, _) => WriteRefines(v, stack, op);
    case SetNullifier(_, _) => WriteRefines(v, stack, op);
    case FlushTop => FlushRefines(v, stack);
    case Push =>
      var w := Cache(v, map[], map[]);
      assert (stack + [stack[n]])[..n + 1] == stack;
      assert forall k :: CoinAt(w, k) == CoinAt(v, k) && NullAt(w, k) == NullAt(v, k);
    case Drop =>
  }

  predicate CanRun(depth: nat, ops: seq<Op>)
    decreases |ops|
  {
    ops == [] ||
    (Enabled(depth, ops[0]) &&
     CanRun(if ops[0].Push? then depth + 1 else if ops[0].Drop? then depth - 1 else depth, ops[1..]))
  }

  function Run(v: View, ops: seq<Op>): (View, seq<Obs>)
    requires CanRun(Depth(v), ops)
    decreases |ops|
  {
    if ops == [] then (v, [])
    else
      var (v', o) := Step(v, ops[0]);
      StepDepth(v, ops[0]);
      var (w, os) := Run(v', ops[1..]);
      (w, [o] + os)
  }

  function FlatRun(stack: seq<Flat>, ops: seq<Op>): (seq<Flat>, seq<Obs>)
    requires stack != [] && CanRun(|stack|, ops)
    decreases |ops|
  {
    if ops == [] then (stack, [])
    else
      var (stack', o) := FlatStep(stack, ops[0]);
      var (w, os) := FlatRun(stack', ops[1..]);
      (w, [o] + os)
  }

  lemma {:induction false} FetchDepth(v: View, k: Key)
    ensures Depth(Fetch(v, k).0) == Depth(v) && Depth(FetchNull(v, k).0) == Depth(v)
  {
    if v.Cache? { FetchDepth(v.base, k); }
  }

  lemma StepDepth(v: View, op: Op)
    requires Enabled(Depth(v), op)
    ensures Depth(Step(v, op).0) == if op.Push? then Depth(v) + 1 else if op.Drop? then Depth(v) - 1 else Depth(v)
  {
    if op.Get? || op.Have? || op.GetNullifier? { FetchDepth(v, op.k); }
    if op.Write? { FetchDepth(v.base, op.k); }
  }

  /** Main result: any run over any stack of caches shows what the same run over flat maps shows,
      and in the end every layer still equals its flat map. */
  lemma {:induction false} RunRefines(v: View, stack: seq<Flat>, ops: seq<Op>)
    requires Ok(v) && Agree(v, stack) && CanRun(Depth(v), ops)
    ensures Depth(v) == |stack|
    ensures Ok(Run(v, ops).0) && Agree(Run(v, ops).0, FlatRun(stack, ops).0)
    ensures Run(v, ops).1 == FlatRun(stack, ops).1
    decreases |ops|
  {
    AgreeDepth(v, stack);
    if ops != [] {
      StepRefines(v, stack, ops[0]);
      StepDepth(v, ops[0]);
      RunRefines(Step(v, ops[0]).0, FlatStep(stack, ops[0]).0, ops[1..]);
    }
  }

  // ----- the loops

  function SetNulls(v: View, ks: seq<Key>, spent: bool): (r: View)
    requires v.Cache?
    ensures r.Cache?
  {
    if ks == [] then v else SetNull(SetNulls(v, ks[..|ks| - 1], spent), ks[|ks| - 1], spent)
  }

  /** Setting all nullifiers of a transaction sets these and changes nothing else in view. */
  lemma {:induction false} SetNullsKeep(v: View, ks: seq<Key>, spent: bool)
    requires v.Cache? && Ok(v)
    ensures var v' := SetNulls(v, ks, spent);
            && Ok(v') && v'.base == v.base
            && (forall j :: NullAt(v', j) == if j in ks then spent else NullAt(v, j))
            && (forall j :: CoinAt(v', j) == CoinAt(v, j))
  {
    if ks != [] {
      var n := |ks| - 1;
      SetNullsKeep(v, ks[..n], spent);
      SetNullKeeps(SetNulls(v, ks[..n], spent), ks[n], spent);
      assert ks == ks[..n] + [ks[n]];
    }
  }

  /** The loop of lines 677-710: entries are moved up and erased one by one, in any order. */
  method BatchWriteCoins(mapCoins: CoinMap, parent: CoinMap) returns (cacheCoins: CoinMap)
    requires forall k <- mapCoins ::
               mapCoins[k].isDirty && k !in parent && !mapCoins[k].coins.IsPruned() ==> mapCoins[k].isFresh
    ensures cacheCoins == MergeCoins(mapCoins, parent)
  {
    var rest := mapCoins;
    cacheCoins := parent;
    while rest != map[]
      invariant rest.Keys <= mapCoins.Keys && forall k <- rest :: rest[k] == mapCoins[k]
      invariant forall k <- rest :: k in cacheCoins <==> k in parent
      invariant forall k <- rest :: k in parent ==> cacheCoins[k] == parent[k]
      invariant forall k :: k !in rest ==>
        (if k in cacheCoins then Some(cacheCoins[k]) else None) == MergedCoin(mapCoins, parent, k)
      decreases rest.Keys
    {
      var k :| k in rest;
      var e := rest[k];
      if e.isDirty {
        if k !in cacheCoins {
          if !e.coins.IsPruned() {
            assert e.isFresh;
            cacheCoins := cacheCoins[k := CoinEntry(e.coins, true, true)];
          }
        } else {
          if cacheCoins[k].isFresh && e.coins.IsPruned() {
            cacheCoins := cacheCoins - {k};
          } else {
            cacheCoins := cacheCoins[k := cacheCoins[k].(coins := e.coins, isDirty := true)];
          }
        }
      }
      rest := rest - {k};
    }
    MapIs(cacheCoins, MergeCoins(mapCoins, parent), k => MergedCoin(mapCoins, parent, k));
  }

  /** Two maps that answer every lookup like f are the same map. */
  lemma MapIs<V>(a: map<Key, V>, b: map<Key, V>, f: Key -> Option<V>)
    requires forall k :: (if k in a then Some(a[k]) else None) == f(k)
    requires forall k :: (if k in b then Some(b[k]) else None) == f(k)
    ensures a == b
  {
    forall k ensures k in a <==> k in b {
      assert (if k in a then Some(a[k]) else None) == (if k in b then Some(b[k]) else None);
    }
    forall k | k in a ensures a[k] == b[k] {
      assert Some(a[k]) == f(k) == Some(b[k]);
    }
  }

  method BatchWriteNullifiers(mapNullifiers: NullMap, parent: NullMap) returns (cacheNullifiers: NullMap)
    ensures cacheNullifiers == MergeNulls(mapNullifiers, parent)
  {
    var rest := mapNullifiers;
    cacheNullifiers := parent;
    while rest != map[]
      invariant rest.Keys <= mapNullifiers.Keys && forall k <- rest :: rest[k] == mapNullifiers[k]
      invariant forall k <- rest :: k in cacheNullifiers <==> k in parent
      invariant forall k <- rest :: k in parent ==> cacheNullifiers[k] == parent[k]
      invariant forall k :: k !in rest ==>
        (if k in cacheNullifiers then Some(cacheNullifiers[k]) else None) == MergedNull(mapNullifiers, parent, k)
      decreases rest.Keys
    {
      var k :| k in rest;
      var e := rest[k];
      if e.isDirty {
        if k !in cacheNullifiers || cacheNullifiers[k].entered != e.entered {
          cacheNullifiers := cacheNullifiers[k := NullEntry(e.entered, true)];
        }
      }
      rest := rest - {k};
    }
    MapIs(cacheNullifiers, MergeNulls(mapNullifiers, parent), k => MergedNull(mapNullifiers, parent, k));
  }
}
