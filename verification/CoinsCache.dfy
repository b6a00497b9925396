/** `CCoinsViewCache` as an object (src/coins.cpp): a layer with all its maps, in front of another one or the database. */
module CoinsCache {
  import opened Basics
  import opened TxCoins
  import opened CoinsStack
  import A = AnchorStack
  import P = ProofHashes

  // ----- all that a layer holds

  /** One of something for each kind of commitment tree. */
  datatype Kind = Sprout | Sapling | Frontier
  datatype ByKind<+T> = ByKind(sprout: T, sapling: T, frontier: T) {
    function At(k: Kind): T { if k.Sprout? then sprout else if k.Sapling? then sapling else frontier }
  }

  /** One of something for each kind of proof. */
  datatype Proof = Output | Spend
  datatype ByProof<+T> = ByProof(output: T, spend: T) {
    function At(p: Proof): T { if p.Output? then output else spend }
  }

  type AnchorMap = map<Key, A.Entry>
  type ProofMap = map<Key, P.Entry>

  datatype Layer = Layer(coins: CoinMap, nulls: NullMap, saplingNulls: NullMap, anchors: ByKind<AnchorMap>,
                         proofs: ByProof<ProofMap>, bestAnchor: ByKind<Key>, bestBlock: Key)

  datatype Disk = Disk(coins: map<Key, Coins>, nulls: set<Key>, saplingNulls: set<Key>,
                       anchors: ByKind<map<Key, A.Tree>>, proofs: ByProof<map<Key, set<P.Ref>>>,
                       bestAnchor: ByKind<Key>, bestBlock: Key)

  datatype Stack = Bottom(disk: Disk) | On(base: Stack, layer: Layer)

  // ----- its parts, as the stacks they are

  function CoinsOf(s: Stack): View {
    match s
    case Bottom(d) => Db(d.coins, d.nulls)
    case On(base, l) => Cache(CoinsOf(base), l.coins, l.nulls)
  }

  /** The Sapling nullifiers, as a stack without coins. */
  function SaplingOf(s: Stack): View {
    match s
    case Bottom(d) => Db(map[], d.saplingNulls)
    case On(base, l) => Cache(SaplingOf(base), map[], l.saplingNulls)
  }

  function AnchorsOf(s: Stack, k: Kind): A.View {
    match s
    case Bottom(d) => A.Db(d.anchors.At(k), d.bestAnchor.At(k))
    case On(base, l) => A.Cache(AnchorsOf(base, k), l.anchors.At(k), l.bestAnchor.At(k))
  }

  function ProofsOf(s: Stack, p: Proof): P.View {
    match s
    case Bottom(d) => P.Db(d.proofs.At(p))
    case On(base, l) => P.Cache(ProofsOf(base, p), l.proofs.At(p))
  }

  function BestBlock(s: Stack): Key {
    match s
    case Bottom(d) => d.bestBlock
    case On(base, l) => if l.bestBlock != A.NULL then l.bestBlock else BestBlock(base)
  }

  // ----- Flush

  /** Lines 664-727: what a cache makes of a child's maps and hashes. */
  function MergeLayers(child: Layer, parent: Layer): Layer {
    Layer(MergeCoins(child.coins, parent.coins), MergeNulls(child.nulls, parent.nulls),
          MergeNulls(child.saplingNulls, parent.saplingNulls),
          MergeAnchors(child.anchors, parent.anchors), MergeProofs(child.proofs, parent.proofs), child.bestAnchor, child.bestBlock)
  }

  function MergeAnchors(child: ByKind<AnchorMap>, parent: ByKind<AnchorMap>): ByKind<AnchorMap> {
    ByKind(A.Merge(child.sprout, parent.sprout), A.Merge(child.sapling, parent.sapling), A.Merge(child.frontier, parent.frontier))
  }

  function MergeProofs(child: ByProof<ProofMap>, parent: ByProof<ProofMap>): ByProof<ProofMap> {
    ByProof(P.Merge(child.output, parent.output), P.Merge(child.spend, parent.spend))
  }

  function SetOr(hash: Key, was: Key): Key { if hash == A.NULL then was else hash }

  /** Lines 235-284 of src/txdb.cpp: what the database makes of them. */
  function MergeDisk(trees: ByKind<A.Trees>, child: Layer, d: Disk): Disk {
    Disk(DbCoins(child.coins, d.coins), DbNulls(child.nulls, d.nulls), DbNulls(child.saplingNulls, d.saplingNulls),
         ByKind(A.DbMerge(trees.sprout, child.anchors.sprout, d.anchors.sprout),
                A.DbMerge(trees.sapling, child.anchors.sapling, d.anchors.sapling),
                A.DbMerge(trees.frontier, child.anchors.frontier, d.anchors.frontier)),
         ByProof(P.DbMerge(child.proofs.output, d.proofs.output), P.DbMerge(child.proofs.spend, d.proofs.spend)),
         ByKind(SetOr(child.bestAnchor.sprout, d.bestAnchor.sprout), SetOr(child.bestAnchor.sapling, d.bestAnchor.sapling),
                SetOr(child.bestAnchor.frontier, d.bestAnchor.frontier)),
         SetOr(child.bestBlock, d.bestBlock))
  }

  function Absorbed(trees: ByKind<A.Trees>, s: Stack, child: Layer): Stack {
    match s
    case Bottom(d) => Bottom(MergeDisk(trees, child, d))
    case On(base, l) => On(base, MergeLayers(child, l))
  }

  function Emptied(l: Layer): Layer {
    l.(coins := map[], nulls := map[], saplingNulls := map[], anchors := ByKind(map[], map[], map[]),
       proofs := ByProof(map[], map[]))
  }

  /** Lines 729-741. */
  function Flushed(trees: ByKind<A.Trees>, s: Stack): Stack
    requires s.On?
  {
    On(Absorbed(trees, s.base, s.layer), Emptied(s.layer))
  }

  /** Flushing flushes every part, each as its own theorems have it. */
  lemma FlushedParts(trees: ByKind<A.Trees>, s: Stack)
    requires s.On?
    ensures CoinsOf(Flushed(trees, s)) == FlushView(CoinsOf(s)) && SaplingOf(Flushed(trees, s)) == FlushView(SaplingOf(s))
    ensures forall k :: AnchorsOf(Flushed(trees, s), k) == A.FlushView(trees.At(k), AnchorsOf(s, k))
    ensures forall p :: ProofsOf(Flushed(trees, s), p) == P.FlushView(ProofsOf(s, p))
  {
    FlushedCoins(trees, s);
    FlushedSapling(trees, s);
    forall k ensures AnchorsOf(Flushed(trees, s), k) == A.FlushView(trees.At(k), AnchorsOf(s, k)) { FlushedAnchors(trees, s, k); }
    forall p ensures ProofsOf(Flushed(trees, s), p) == P.FlushView(ProofsOf(s, p)) { FlushedProofs(trees, s, p); }
  }

  lemma FlushedCoins(trees: ByKind<A.Trees>, s: Stack)
    requires s.On?
    ensures CoinsOf(Flushed(trees, s)) == FlushView(CoinsOf(s))
  {
  }

  lemma FlushedSapling(trees: ByKind<A.Trees>, s: Stack)
    requires s.On?
    ensures SaplingOf(Flushed(trees, s)) == FlushView(SaplingOf(s))
  {
    assert MergeCoins(map[], map[]) == map[] && DbCoins(map[], map[]) == map[];
  }

  lemma FlushedAnchors(trees: ByKind<A.Trees>, s: Stack, k: Kind)
    requires s.On?
    ensures AnchorsOf(Flushed(trees, s), k) == A.FlushView(trees.At(k), AnchorsOf(s, k))
  {
  }

  lemma FlushedProofs(trees: ByKind<A.Trees>, s: Stack, p: Proof)
    requires s.On?
    ensures ProofsOf(Flushed(trees, s), p) == P.FlushView(ProofsOf(s, p))
  {
  }

  /** Every part is as its invariant wants it. */
  ghost predicate AllOk(trees: ByKind<A.Trees>, s: Stack) {
    && Ok(CoinsOf(s)) && Ok(SaplingOf(s)) && (forall k :: A.Ok(trees.At(k), AnchorsOf(s, k))) && forall p :: P.Ok(ProofsOf(s, p))
  }

  /** The two layers show the same coins, nullifiers, anchors and proofs. */
  ghost predicate Shows(trees: ByKind<A.Trees>, s: Stack, r: Stack) {
    && (forall x :: CoinAt(CoinsOf(s), x) == CoinAt(CoinsOf(r), x)) && (forall x :: NullAt(CoinsOf(s), x) == NullAt(CoinsOf(r), x))
    && (forall x :: NullAt(SaplingOf(s), x) == NullAt(SaplingOf(r), x))
    && (forall k, x :: A.AnchorAt(trees.At(k), AnchorsOf(s, k), x) == A.AnchorAt(trees.At(k), AnchorsOf(r, k), x))
    && (forall p, x :: P.TxidsAt(ProofsOf(s, p), x) == P.TxidsAt(ProofsOf(r, p), x))
  }

  /** And the same best anchors and best block. */
  ghost predicate SameBests(trees: ByKind<A.Trees>, s: Stack, r: Stack) {
    (forall k :: A.BestAt(trees.At(k), AnchorsOf(s, k)) == A.BestAt(trees.At(k), AnchorsOf(r, k))) && BestBlock(s) == BestBlock(r)
  }

  /** Every hash is set here, or goes to the database, or is no other in the parent than further down. */
  ghost predicate BestsSurvive(trees: ByKind<A.Trees>, s: Stack)
    requires s.On?
  {
    && (forall k :: A.BestSurvives(trees.At(k), AnchorsOf(s, k)))
    && (s.layer.bestBlock != A.NULL || s.base.Bottom? || BestBlock(s.base) == BestBlock(s.base.base))
  }

  lemma BestBlockFlushed(trees: ByKind<A.Trees>, s: Stack)
    requires s.On?
    ensures BestBlock(Flushed(trees, s).base) == BestBlock(s)
        <==> s.layer.bestBlock != A.NULL || s.base.Bottom? || BestBlock(s.base) == BestBlock(s.base.base)
  {
  }

  /** Main result: after Flush the parent shows all that this layer showed.  It shows the same best anchors and best
      block exactly if these survive, and then all invariants hold again. */
  lemma FlushKeepsAll(trees: ByKind<A.Trees>, s: Stack)
    requires s.On? && AllOk(trees, s) && forall k :: trees.At(k).Hashing()
    ensures var r := Flushed(trees, s);
            && Shows(trees, s, r.base) && Shows(trees, s, r)
            && (SameBests(trees, s, r.base) <==> BestsSurvive(trees, s)) && (BestsSurvive(trees, s) ==> AllOk(trees, r))
  {
    var r := Flushed(trees, s);
    FlushedParts(trees, s);
    FlushKeeps(CoinsOf(s));
    FlushKeeps(SaplingOf(s));
    BestBlockFlushed(trees, s);
    forall k ensures A.BestAt(trees.At(k), AnchorsOf(r.base, k)) == A.BestAt(trees.At(k), AnchorsOf(s, k))
                 <==> A.BestSurvives(trees.At(k), AnchorsOf(s, k))
    {
      A.FlushBest(trees.At(k), AnchorsOf(s, k));
    }
    forall k, x ensures A.AnchorAt(trees.At(k), AnchorsOf(r.base, k), x) == A.AnchorAt(trees.At(k), AnchorsOf(s, k), x)
                     && A.AnchorAt(trees.At(k), AnchorsOf(r, k), x) == A.AnchorAt(trees.At(k), AnchorsOf(s, k), x)
    {
      A.FlushAnchors(trees.At(k), AnchorsOf(s, k), x);
    }
    forall p ensures P.Ok(ProofsOf(r, p)) && P.Same(ProofsOf(s, p), ProofsOf(r, p)) && P.Same(ProofsOf(s, p), ProofsOf(r.base, p)) {
      P.FlushKeeps(ProofsOf(s, p));
    }
    if BestsSurvive(trees, s) {
      forall k ensures A.Ok(trees.At(k), AnchorsOf(r, k)) { A.FlushKeeps(trees.At(k), AnchorsOf(s, k)); }
    }
  }

  // ----- the objects

  class CoinsDb {
    const trees: ByKind<A.Trees>
    var coins: map<Key, Coins>
    var nulls: set<Key>
    var saplingNulls: set<Key>
    var anchors: ByKind<map<Key, A.Tree>>
    var proofs: ByProof<map<Key, set<P.Ref>>>
    var bestAnchor: ByKind<Key>
    var bestBlock: Key

    ghost function Contents(): Disk
      reads this
    {
      Disk(coins, nulls, saplingNulls, anchors, proofs, bestAnchor, bestBlock)
    }

    /** Lines 235-284 of src/txdb.cpp; the loops over the maps are functions here. */
    method BatchWrite(child: Layer)
      modifies this
      ensures Contents() == MergeDisk(trees, child, old(Contents()))
    {
      coins := DbCoins(child.coins, coins);
      anchors := ByKind(A.DbMerge(trees.sprout, child.anchors.sprout, anchors.sprout),
                        A.DbMerge(trees.sapling, child.anchors.sapling, anchors.sapling),
                        A.DbMerge(trees.frontier, child.anchors.frontier, anchors.frontier));
      nulls := DbNulls(child.nulls, nulls);
      saplingNulls := DbNulls(child.saplingNulls, saplingNulls);
      proofs := ByProof(P.DbMerge(child.proofs.output, proofs.output), P.DbMerge(child.proofs.spend, proofs.spend));
      if child.bestBlock != A.NULL { bestBlock := child.bestBlock; }
      if child.bestAnchor.sprout != A.NULL { bestAnchor := bestAnchor.(sprout := child.bestAnchor.sprout); }
      if child.bestAnchor.sapling != A.NULL { bestAnchor := bestAnchor.(sapling := child.bestAnchor.sapling); }
      if child.bestAnchor.frontier != A.NULL { bestAnchor := bestAnchor.(frontier := child.bestAnchor.frontier); }
    }
  }

  /** A cache in front of another cache, or of the database when base is null. */
  class CoinsViewCache {
    const base: CoinsViewCache?
    const db: CoinsDb
    const depth: nat
    var cacheCoins: CoinMap
    var cacheNullifiers: NullMap
    var cacheSaplingNullifiers: NullMap
    var cacheAnchors: ByKind<AnchorMap>
    var cacheProofs: ByProof<ProofMap>
    var hashAnchor: ByKind<Key>
    var hashBlock: Key
    var hasModifier: bool

    constructor (base: CoinsViewCache?, db: CoinsDb)
      requires base != null ==> base.Stacked() && base.db == db
      ensures Stacked() && this.base == base && this.db == db && !hasModifier
      ensures Value() == Cache(if base == null then Db(db.coins, db.nulls) else base.Value(), map[], map[])
      ensures All() == On(if base == null then Bottom(db.Contents()) else base.All(), NEW_LAYER)
    {
      this.base, this.db := base, db;
      depth := if base == null then 0 else base.depth + 1;
      cacheCoins, cacheNullifiers, hasModifier := map[], map[], false;
      cacheSaplingNullifiers, cacheAnchors := map[], ByKind(map[], map[], map[]);
      cacheProofs, hashAnchor, hashBlock := ByProof(map[], map[]), ByKind(A.NULL, A.NULL, A.NULL), A.NULL;
      new;
      if base != null { base.LayersBelow(); }
    }

    ghost predicate Stacked()
      decreases depth
    {
      base != null ==> base.depth < depth && base.db == db && base.Stacked()
    }

    /** This cache and the ones below it. */
    ghost function Layers(): set<CoinsViewCache>
      requires Stacked()
      decreases depth
    {
      {this} + if base == null then {} else base.Layers()
    }

    ghost function Value(): (v: View)
      requires Stacked()
      reads Layers(), db
      ensures v.Cache? && v.coins == cacheCoins && v.nulls == cacheNullifiers
      decreases depth
    {
      Cache(if base == null then Db(db.coins, db.nulls) else base.Value(), cacheCoins, cacheNullifiers)
    }

    /** This layer and everything below it, with all the maps. */
    ghost function All(): (s: Stack)
      requires Stacked()
      reads Layers(), db
      ensures s.On? && s.layer == Held()
      decreases depth
    {
      On(if base == null then Bottom(db.Contents()) else base.All(), Held())
    }

    ghost function Held(): Layer
      reads this
    {
      Layer(cacheCoins, cacheNullifiers, cacheSaplingNullifiers, cacheAnchors, cacheProofs, hashAnchor, hashBlock)
    }

    lemma {:induction false} ValueIs()
      requires Stacked()
      ensures Value() == CoinsOf(All())
      decreases depth
    {
      if base != null { base.ValueIs(); }
    }

    lemma {:induction false} LayersBelow()
      requires Stacked()
      ensures forall l <- Layers() :: allocated(l) && l.depth <= depth
      decreases depth
    {
      if base != null { base.LayersBelow(); }
    }

    lemma NotBelowItself()
      requires Stacked()
      ensures base != null ==> this !in base.Layers() && forall l <- base.Layers() :: allocated(l)
    {
      if base != null { base.LayersBelow(); }
    }

    method FetchCoins(txid: Key) returns (r: Option<Coins>)
      requires Stacked()
      modifies Layers()`cacheCoins
      ensures (Value(), r) == Fetch(old(Value()), txid)
      decreases depth
    {
      if txid in cacheCoins {
        return Some(cacheCoins[txid].coins);
      }
      if base == null {
        r := if txid in db.coins then Some(db.coins[txid]) else None;
      } else {
        NotBelowItself();
        r := base.FetchCoins(txid);
      }
      if r.Some? {
        cacheCoins := cacheCoins[txid := CoinEntry(r.value, false, r.value.IsPruned())];
      }
    }

    method GetNullifier(nullifier: Key) returns (r: bool)
      requires Stacked()
      modifies Layers()`cacheNullifiers
      ensures (Value(), r) == FetchNull(old(Value()), nullifier)
      decreases depth
    {
      if nullifier in cacheNullifiers {
        return cacheNullifiers[nullifier].entered;
      }
      if base == null {
        r := nullifier in db.nulls;
      } else {
        NotBelowItself();
        r := base.GetNullifier(nullifier);
      }
      cacheNullifiers := cacheNullifiers[nullifier := NullEntry(r, false)];
    }

    /** Hands out the coins to be modified. */
    method ModifyCoins(txid: Key) returns (c: Coins)
      requires Stacked() && !hasModifier
      modifies Layers()`cacheCoins, `hasModifier
      ensures Value() == Open(old(Value()), txid) && hasModifier
      ensures c == cacheCoins[txid].coins
    {
      NotBelowItself();
      hasModifier := true;
      if txid in cacheCoins {
        cacheCoins := cacheCoins[txid := cacheCoins[txid].(isDirty := true)];
      } else {
        var r: Option<Coins>;
        if base == null {
          r := if txid in db.coins then Some(db.coins[txid]) else None;
        } else {
          NotBelowItself();
          r := base.FetchCoins(txid);
        }
        cacheCoins := cacheCoins[txid := if r.None? then CoinEntry(NO_COINS, true, true)
                                         else CoinEntry(r.value, true, r.value.IsPruned())];
      }
      c := cacheCoins[txid].coins;
    }

    /** The end of a modification that left c in the entry. */
    method ReleaseModifier(txid: Key, c: Coins)
      requires Stacked() && hasModifier && txid in cacheCoins
      modifies this
      ensures Value() == Close(old(Value()), txid, c) && !hasModifier
    {
      NotBelowItself();
      hasModifier := false;
      var clean := RunCleanup(c);
      if cacheCoins[txid].isFresh && clean.IsPruned() {
        cacheCoins := cacheCoins - {txid};
      } else {
        cacheCoins := cacheCoins[txid := cacheCoins[txid].(coins := clean)];
      }
      assert base != null ==> base.Value() == old(base.Value());
    }

    method SetNullifiers(nullifiers: seq<Key>, spent: bool)
      requires Stacked()
      modifies this
      ensures Value() == SetNulls(old(Value()), nullifiers, spent)
    {
      NotBelowItself();
      for i := 0 to |nullifiers|
        invariant Value() == SetNulls(old(Value()), nullifiers[..i], spent)
      {
        assert nullifiers[..i + 1][..i] == nullifiers[..i];
        cacheNullifiers := cacheNullifiers[nullifiers[i] := NullEntry(spent, true)];
      }
      assert nullifiers[..|nullifiers|] == nullifiers;
    }

    /** Lines 545-558: the answer is remembered in every layer that had none. */
    method GetBestBlock() returns (r: Key)
      requires Stacked()
      modifies Layers()`hashBlock
      ensures r == old(BestBlock(All())) == BestBlock(All()) && Value() == old(Value())
      decreases depth
    {
      if hashBlock == A.NULL {
        if base == null {
          hashBlock := db.bestBlock;
        } else {
          NotBelowItself();
          hashBlock := base.GetBestBlock();
        }
      }
      r := hashBlock;
    }

    /** Lines 664-727. */
    method BatchWrite(child: Layer)
      requires Stacked() && !hasModifier
      requires forall k <- child.coins ::
                 child.coins[k].isDirty && k !in cacheCoins && !child.coins[k].coins.IsPruned() ==> child.coins[k].isFresh
      modifies this
      ensures All() == Absorbed(db.trees, old(All()), child) && hasModifier == old(hasModifier)
    {
      NotBelowItself();
      var coins := BatchWriteCoins(child.coins, cacheCoins);
      var anchors := BatchWriteAllAnchors(child.anchors, cacheAnchors);
      var nulls := BatchWriteNullifiers(child.nulls, cacheNullifiers);
      var saplingNulls := BatchWriteNullifiers(child.saplingNulls, cacheSaplingNullifiers);
      var proofs := BatchWriteAllProofs(child.proofs, cacheProofs);
      Hold(Layer(coins, nulls, saplingNulls, anchors, proofs, child.bestAnchor, child.bestBlock));
    }

    /** Assigns all maps and hashes. */
    method Hold(l: Layer)
      requires Stacked()
      modifies this
      ensures All() == On(old(All()).base, l) && hasModifier == old(hasModifier)
    {
      NotBelowItself();
      cacheCoins, cacheNullifiers, cacheSaplingNullifiers := l.coins, l.nulls, l.saplingNulls;
      cacheAnchors, cacheProofs, hashAnchor, hashBlock := l.anchors, l.proofs, l.bestAnchor, l.bestBlock;
      assert base != null ==> base.All() == old(base.All());
    }

    /** Lines 729-741.  The precondition is the state the refinement theorem keeps; the FRESH assertion needs it. */
    method Flush()
      requires Stacked() && Ok(Value()) && (base != null ==> !base.hasModifier)
      modifies Layers(), db
      ensures All() == Flushed(db.trees, old(All())) && Value() == FlushView(old(Value()))
    {
      ghost var before := All();
      ValueIs();
      NotBelowItself();
      var held := Layer(cacheCoins, cacheNullifiers, cacheSaplingNullifiers, cacheAnchors, cacheProofs, hashAnchor, hashBlock);
      if base == null {
        db.BatchWrite(held);
      } else {
        forall k | k in cacheCoins && cacheCoins[k].isDirty && k !in base.cacheCoins
          ensures cacheCoins[k].isFresh
        {
          FreshAssertHolds(Value(), k);
        }
        base.BatchWrite(held);
      }
      Hold(Emptied(held));
      assert All() == Flushed(db.trees, before);
      ValueIs();
      FlushedCoins(db.trees, before);
    }
  }

  /** Lines 712-714. */
  method BatchWriteAllAnchors(child: ByKind<AnchorMap>, parent: ByKind<AnchorMap>) returns (r: ByKind<AnchorMap>)
    ensures r == MergeAnchors(child, parent)
  {
    var sprout := A.BatchWriteAnchors(child.sprout, parent.sprout);
    var sapling := A.BatchWriteAnchors(child.sapling, parent.sapling);
    var frontier := A.BatchWriteAnchors(child.frontier, parent.frontier);
    r := ByKind(sprout, sapling, frontier);
  }

  /** Lines 719-720. */
  method BatchWriteAllProofs(child: ByProof<ProofMap>, parent: ByProof<ProofMap>) returns (r: ByProof<ProofMap>)
    ensures r == MergeProofs(child, parent)
  {
    var output := P.BatchWriteProofHashes(child.output, parent.output);
    var spend := P.BatchWriteProofHashes(child.spend, parent.spend);
    r := ByProof(output, spend);
  }

  /** A layer without entries that has resolved no hash. */
  const NEW_LAYER := Layer(map[], map[], map[], ByKind(map[], map[], map[]), ByProof(map[], map[]),
                           ByKind(A.NULL, A.NULL, A.NULL), A.NULL)
}
