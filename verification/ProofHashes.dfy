/** Duplicate-proof tracking in the layered cache (src/coins.cpp): which transactions carried a proof. */
module ProofHashes {
  import opened Basics

  type Key = nat                                   // a 256-bit hash
  datatype Ref = Ref(txid: Key, index: nat)        // a proof's place in a transaction
  datatype Entry = Entry(txids: set<Ref>, isDirty: bool)
  datatype View =
    | Db(dbProofs: map<Key, set<Ref>>)
    | Cache(base: View, proofs: map<Key, Entry>)

  function TxidsAt(v: View, k: Key): set<Ref> {
    match v
    case Db(p) => if k in p then p[k] else {}
    case Cache(base, p) => if k in p then p[k].txids else TxidsAt(base, k)
  }

  /** GetZkProofHash (lines 249-299): the base's set is cached. */
  function Fetch(v: View, k: Key): (View, set<Ref>) {
    match v
    case Db(_) => (v, TxidsAt(v, k))
    case Cache(base, p) =>
      if k in p then (v, p[k].txids)
      else var (base', r) := Fetch(base, k); (Cache(base', p[k := Entry(r, false)]), r)
  }

  /** One proof of SetZkProofHashes (lines 470-495): a missing entry starts out empty, whatever the base holds. */
  function SetProof(v: View, k: Key, x: Ref, addTx: bool): View
    requires v.Cache?
  {
    var txids := if k in v.proofs then v.proofs[k].txids else {};
    v.(proofs := v.proofs[k := Entry(if addTx then txids + {x} else txids - {x}, true)])
  }

  lemma {:induction false} FetchKeeps(v: View, k: Key, j: Key)
    ensures Fetch(v, k).1 == TxidsAt(v, k)
    ensures TxidsAt(Fetch(v, k).0, j) == TxidsAt(v, j)
  {
    if v.Cache? && k !in v.proofs {
      FetchKeeps(v.base, k, k);
      FetchKeeps(v.base, k, j);
    }
  }

  /** Adding and removing do what they say exactly if the proof's entry was cached, or the base knows
      the proof from no other place. */
  lemma SetProofExact(v: View, k: Key, x: Ref, addTx: bool)
    requires v.Cache?
    ensures var seen := TxidsAt(v, k);
            TxidsAt(SetProof(v, k, x, addTx), k) == (if addTx then seen + {x} else seen - {x})
            <==> k in v.proofs || seen <= {x}
    ensures forall j :: j != k ==> TxidsAt(SetProof(v, k, x, addTx), j) == TxidsAt(v, j)
  {
    var seen := TxidsAt(v, k);
    if k !in v.proofs && !(seen <= {x}) {
      var y :| y in seen && y != x;
      assert y !in TxidsAt(SetProof(v, k, x, addTx), k);
    }
  }

  /** Reading first, as the duplicate check does, makes it exact. */
  lemma SetProofAfterFetch(v: View, k: Key, x: Ref, addTx: bool)
    requires v.Cache?
    ensures TxidsAt(SetProof(Fetch(v, k).0, k, x, addTx), k)
         == if addTx then TxidsAt(v, k) + {x} else TxidsAt(v, k) - {x}
  {
    FetchKeeps(v, k, k);
    SetProofExact(Fetch(v, k).0, k, x, addTx);
  }

  /** A duplicate that goes unnoticed: the database knows the proof from y, a fresh cache records x only. */
  lemma DuplicateForgotten(k: Key, x: Ref, y: Ref)
    requires x != y
    ensures var v := Cache(Db(map[k := {y}]), map[]);
            TxidsAt(v, k) == {y} && TxidsAt(SetProof(v, k, x, true), k) == {x}
  {
    var v := Cache(Db(map[k := {y}]), map[]);
    assert TxidsAt(v, k) == TxidsAt(v.base, k);
  }

  // ----- Flush

  /** What BatchWriteProofHashes (lines 609-629) makes of key k. */
  function Merged(child: map<Key, Entry>, parent: map<Key, Entry>, k: Key): Option<Entry> {
    var was := if k in parent then Some(parent[k]) else None;
    if k !in child || !child[k].isDirty then was
    else if was.None? then Some(Entry(child[k].txids, true))
    else if was.value.txids != child[k].txids then Some(Entry(child[k].txids, true))
    else was
  }

  function Merge(child: map<Key, Entry>, parent: map<Key, Entry>): map<Key, Entry> {
    map k | k in child.Keys + parent.Keys && Merged(child, parent, k).Some? :: Merged(child, parent, k).value
  }

  /** The database (lines 200-214 of src/txdb.cpp): an empty set is erased. */
  function DbMerge(child: map<Key, Entry>, db: map<Key, set<Ref>>): map<Key, set<Ref>> {
    map k | k in child.Keys + db.Keys && (if k in child && child[k].isDirty then child[k].txids != {} else k in db) ::
      if k in child && child[k].isDirty then child[k].txids else db[k]
  }

  function Absorb(parent: View, child: map<Key, Entry>): View {
    match parent
    case Db(p) => Db(DbMerge(child, p))
    case Cache(base, p) => Cache(base, Merge(child, p))
  }

  function FlushView(v: View): View
    requires v.Cache?
  {
    Cache(Absorb(v.base, v.proofs), map[])
  }

  /** What is not dirty agrees with the layer below. */
  ghost predicate Ok(v: View) {
    v.Cache? ==> Ok(v.base) && forall k <- v.proofs :: v.proofs[k].isDirty || v.proofs[k].txids == TxidsAt(v.base, k)
  }

  ghost predicate Same(v: View, w: View) { forall k :: TxidsAt(v, k) == TxidsAt(w, k) }

  lemma {:induction false} FetchOk(v: View, k: Key)
    requires Ok(v)
    ensures var w := Fetch(v, k).0; Ok(w) && Same(v, w) && (w.Cache? <==> v.Cache?) && (v.Cache? ==> Same(v.base, w.base))
  {
    forall j ensures TxidsAt(Fetch(v, k).0, j) == TxidsAt(v, j) { FetchKeeps(v, k, j); }
    if v.Cache? && k !in v.proofs {
      FetchOk(v.base, k);
      FetchKeeps(v.base, k, k);
    }
  }

  /** The parent comes to show what this layer shows, and nothing below it changes. */
  lemma FlushKeeps(v: View)
    requires v.Cache? && Ok(v)
    ensures var w := FlushView(v);
            && Ok(w) && Same(v, w) && Same(v, w.base)
            && (v.base.Cache? <==> w.base.Cache?) && (v.base.Cache? ==> w.base.base == v.base.base)
  {
    var w := FlushView(v);
    forall k ensures TxidsAt(w.base, k) == TxidsAt(v, k) {
      if v.base.Cache? { assert k in w.base.proofs <==> Merged(v.proofs, v.base.proofs, k).Some?; }
    }
    assert forall k :: TxidsAt(w, k) == TxidsAt(w.base, k);
  }

  // ----- whole runs against a stack of flat maps

  type Flat = map<Key, set<Ref>>

  function FlatAt(f: Flat, k: Key): set<Ref> { if k in f then f[k] else {} }

  ghost predicate Matches(v: View, f: Flat) { forall k :: TxidsAt(v, k) == FlatAt(f, k) }

  ghost predicate Agree(v: View, stack: seq<Flat>)
    decreases v
  {
    && stack != [] && Matches(v, stack[|stack| - 1])
    && (if v.Db? then |stack| == 1 else Agree(v.base, stack[..|stack| - 1]))
  }

  datatype Op = Get(k: Key) | Set(k: Key, x: Ref, addTx: bool) | FlushTop | Push | Drop

  /** A proof is recorded in a cache that has read it, or that need not: the condition of SetProofExact. */
  ghost predicate Enabled(v: View, op: Op) {
    match op
    case Get(_) => true
    case Set(k, x, _) => v.Cache? && (k in v.proofs || TxidsAt(v, k) <= {x})
    case FlushTop => v.Cache?
    case Push => true
    case Drop => v.Cache?
  }

  ghost function Step(v: View, op: Op): View
    requires Enabled(v, op)
  {
    match op
    case Get(k) => Fetch(v, k).0
    case Set(k, x, addTx) => SetProof(v, k, x, addTx)
    case FlushTop => FlushView(v)
    case Push => Cache(v, map[])
    case Drop => v.base
  }

  function FlatStep(stack: seq<Flat>, op: Op): (r: seq<Flat>)
    requires stack != [] && (op.FlushTop? || op.Drop? ==> |stack| > 1)
    ensures r != []
  {
    var n := |stack| - 1;
    var top := stack[n];
    match op
    case Get(_) => stack
    case Set(k, x, addTx) => stack[n := top[k := if addTx then FlatAt(top, k) + {x} else FlatAt(top, k) - {x}]]
    case FlushTop => stack[n - 1 := top]
    case Push => stack + [top]
    case Drop => stack[..n]
  }

  lemma {:induction false} AgreeDepth(v: View, stack: seq<Flat>)
    requires Agree(v, stack)
    ensures v.Cache? <==> |stack| > 1
    decreases v
  {
    if v.Cache? { AgreeDepth(v.base, stack[..|stack| - 1]); }
  }

  lemma {:induction false} ReadAgrees(v: View, k: Key, stack: seq<Flat>)
    requires Ok(v) && Agree(v, stack)
    ensures Agree(Fetch(v, k).0, stack) && Fetch(v, k).1 == FlatAt(stack[|stack| - 1], k)
    decreases v
  {
    FetchOk(v, k);
    FetchKeeps(v, k, k);
    if v.Cache? && k !in v.proofs { ReadAgrees(v.base, k, stack[..|stack| - 1]); }
  }

  lemma SetAgrees(v: View, k: Key, x: Ref, addTx: bool, stack: seq<Flat>)
    requires Ok(v) && Agree(v, stack) && Enabled(v, Set(k, x, addTx))
    ensures Ok(SetProof(v, k, x, addTx)) && Agree(SetProof(v, k, x, addTx), FlatStep(stack, Set(k, x, addTx)))
  {
    SetProofExact(v, k, x, addTx);
    var n, stack' := |stack| - 1, FlatStep(stack, Set(k, x, addTx));
    assert stack'[..n] == stack[..n];
    assert Matches(SetProof(v, k, x, addTx), stack'[n]);
  }

  lemma FlushAgrees(v: View, stack: seq<Flat>)
    requires v.Cache? && Ok(v) && Agree(v, stack)
    ensures |stack| > 1 && Agree(FlushView(v), FlatStep(stack, FlushTop))
  {
    AgreeDepth(v, stack);
    AgreeDepth(v.base, stack[..|stack| - 1]);
    FlushKeeps(v);
    var n, stack' := |stack| - 1, FlatStep(stack, FlushTop);
    assert stack'[..n][..n - 1] == stack[..n][..n - 1];
    assert Matches(FlushView(v).base, stack'[..n][n - 1]);
    assert Matches(FlushView(v), stack'[n]);
  }

  lemma StepRefines(v: View, op: Op, stack: seq<Flat>)
    requires Ok(v) && Agree(v, stack) && Enabled(v, op)
    ensures op.FlushTop? || op.Drop? ==> |stack| > 1
    ensures Ok(Step(v, op)) && Agree(Step(v, op), FlatStep(stack, op))
    ensures op.Get? ==> Fetch(v, op.k).1 == FlatAt(stack[|stack| - 1], op.k)
  {
    AgreeDepth(v, stack);
    match op
    case Get(k) => FetchOk(v, k); ReadAgrees(v, k, stack);
    case Set(k, x, addTx) => SetAgrees(v, k, x, addTx, stack);
    case FlushTop => FlushKeeps(v); FlushAgrees(v, stack);
    case Push =>
      assert forall k :: TxidsAt(Cache(v, map[]), k) == TxidsAt(v, k);
      assert (stack + [stack[|stack| - 1]])[..|stack|] == stack;
    case Drop =>
  }

  ghost predicate CanRun(v: View, ops: seq<Op>)
    decreases |ops|
  {
    ops == [] || (Enabled(v, ops[0]) && CanRun(Step(v, ops[0]), ops[1..]))
  }

  ghost function Run(v: View, ops: seq<Op>): View
    requires CanRun(v, ops)
    decreases |ops|
  {
    if ops == [] then v else Run(Step(v, ops[0]), ops[1..])
  }

  ghost predicate FlatReaches(stack: seq<Flat>, ops: seq<Op>, stack': seq<Flat>)
    decreases |ops|
  {
    if ops == [] then stack' == stack
    else && stack != [] && (ops[0].FlushTop? || ops[0].Drop? ==> |stack| > 1)
         && FlatReaches(FlatStep(stack, ops[0]), ops[1..], stack')
  }

  /** Main result: over any run in which no unread proof is overwritten, every layer equals a flat map of sets. */
  lemma {:induction false} RunRefines(v: View, ops: seq<Op>, stack: seq<Flat>) returns (stack': seq<Flat>)
    requires Ok(v) && Agree(v, stack) && CanRun(v, ops)
    ensures Ok(Run(v, ops)) && Agree(Run(v, ops), stack') && FlatReaches(stack, ops, stack')
    decreases |ops|
  {
    if ops == [] {
      stack' := stack;
    } else {
      StepRefines(v, ops[0], stack);
      stack' := RunRefines(Step(v, ops[0]), ops[1..], FlatStep(stack, ops[0]));
    }
  }

  /** The loop of BatchWriteProofHashes. */
  method BatchWriteProofHashes(mapProofHash: map<Key, Entry>, parent: map<Key, Entry>)
    returns (cacheProofHash: map<Key, Entry>)
    ensures cacheProofHash == Merge(mapProofHash, parent)
  {
    var rest := mapProofHash;
    cacheProofHash := parent;
    while rest != map[]
      invariant rest.Keys <= mapProofHash.Keys && forall k <- rest :: rest[k] == mapProofHash[k]
      invariant forall k <- rest :: k in cacheProofHash <==> k in parent
      invariant forall k <- rest :: k in parent ==> cacheProofHash[k] == parent[k]
      invariant forall k :: k !in rest ==>
        (if k in cacheProofHash then Some(cacheProofHash[k]) else None) == Merged(mapProofHash, parent, k)
      decreases rest.Keys
    {
      var k :| k in rest;
      var e := rest[k];
      if e.isDirty {
        if k !in cacheProofHash {
          cacheProofHash := cacheProofHash[k := Entry(e.txids, true)];
        } else if cacheProofHash[k].txids != e.txids {
          cacheProofHash := cacheProofHash[k := Entry(e.txids, true)];
        }
      }
      rest := rest - {k};
    }
    var merged := Merge(mapProofHash, parent);
    forall k ensures (k in cacheProofHash <==> k in merged) && (k in merged ==> cacheProofHash[k] == merged[k]) {
      assert (if k in cacheProofHash then Some(cacheProofHash[k]) else None) == Merged(mapProofHash, parent, k);
    }
    assert cacheProofHash.Keys == merged.Keys;
  }
}
