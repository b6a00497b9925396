/** Note-commitment anchors in the layered cache (src/coins.cpp): the entered trees, the best
  anchor, and what Flush does to both. One instance stands for Sprout, Sapling and the frontier,
  which share this code.
 */
module AnchorStack {
  import opened Basics

  type Key = nat            // a 256-bit hash

  const NULL: Key := 0      // uint256(): not read yet

  /** A note commitment tree, given by its leaves. */
  type Tree = seq<Key>

  /** The root function of the trees. */
  datatype Trees = Trees(root: Tree -> Key) {
    function EmptyRoot(): Key { root([]) }

    /** Roots identify trees, and none is the null hash. */
    ghost predicate Hashing() {
      (forall t: Tree :: root(t) != NULL) &&
      (forall t: Tree, u: Tree {:trigger root(t), root(u)} :: root(t) == root(u) ==> t == u)
    }
  }

  datatype Entry = Entry(entered: bool, tree: Tree, isDirty: bool)

  datatype View =
    | Db(dbAnchors: map<Key, Tree>, dbBest: Key)
    | Cache(base: View, anchors: map<Key, Entry>, best: Key)

  // ----- what a layer shows

  function Shown(e: Entry): Option<Tree> {
    if e.entered then Some(e.tree) else None
  }

  function AnchorAt(h: Trees, v: View, k: Key): Option<Tree> {
    match v
    case Db(a, _) => if k == h.EmptyRoot() then Some([]) else if k in a then Some(a[k]) else None
    case Cache(base, a, _) => if k in a then Shown(a[k]) else AnchorAt(h, base, k)
  }

  function BestAt(h: Trees, v: View): Key {
    match v
    case Db(_, b) => if b == NULL then h.EmptyRoot() else b
    case Cache(base, _, b) => if b == NULL then BestAt(h, base) else b
  }

  // ----- operations

  /** GetSproutAnchorAt and its siblings (lines 155-222). */
  function Fetch(h: Trees, v: View, k: Key): (View, Option<Tree>) {
    match v
    case Db(_, _) => (v, AnchorAt(h, v, k))
    case Cache(base, a, _) =>
      if k in a then (v, Shown(a[k]))
      else
        var (base', r) := Fetch(h, base, k);
        (v.(base := base', anchors := if r.None? then a else a[k := Entry(true, r.value, false)]), r)
  }

  /** GetBestAnchor (lines 561-581). */
  function GetBest(h: Trees, v: View): (r: (View, Key))
    ensures r.0.Cache? <==> v.Cache?
    ensures v.Cache? ==> r.0.anchors == v.anchors
  {
    match v
    case Db(_, _) => (v, BestAt(h, v))
    case Cache(base, _, b) =>
      if b != NULL then (v, b)
      else var (base', r) := GetBest(h, base); (v.(base := base', best := r), r)
  }

  /** AbstractPushAnchor (lines 301-333). */
  function PushAnchor(h: Trees, v: View, tree: Tree): (r: View)
    requires v.Cache?
    ensures r.Cache?
  {
    var (v', current) := GetBest(h, v);
    var newrt := h.root(tree);
    if current == newrt then v'
    else v'.(anchors := v'.anchors[newrt := Entry(true, tree, true)], best := newrt)
  }

  /** AbstractPopAnchor (lines 392-422). Where the best anchor is not visible the code asserts. */
  function PopAnchor(h: Trees, v: View, newrt: Key): (r: Option<View>)
    requires v.Cache?
    ensures r.Some? ==> r.value.Cache?
  {
    var (v', current) := GetBest(h, v);
    if current == newrt then Some(v')
    else
      var (w, tree) := Fetch(h, v', current);
      if tree.None? then None
      else
        FetchCaches(h, v', current);
        Some(w.(anchors := w.anchors[current := w.anchors[current].(entered := false, isDirty := true)],
                best := newrt))
  }

  lemma FetchCaches(h: Trees, v: View, k: Key)
    requires v.Cache? && Fetch(h, v, k).1.Some?
    ensures Fetch(h, v, k).0.Cache? && k in Fetch(h, v, k).0.anchors
  {
  }

  /** What BatchWriteAnchors (lines 631-662) makes of key k: a tree the parent has is not copied. */
  function Merged(child: map<Key, Entry>, parent: map<Key, Entry>, k: Key): Option<Entry> {
    var was := if k in parent then Some(parent[k]) else None;
    if k !in child || !child[k].isDirty then was
    else if was.None? then Some(child[k])
    else if was.value.entered != child[k].entered
      then Some(was.value.(entered := child[k].entered, isDirty := true))
    else was
  }

  function Merge(child: map<Key, Entry>, parent: map<Key, Entry>): map<Key, Entry> {
    map k | k in child.Keys + parent.Keys && Merged(child, parent, k).Some? :: Merged(child, parent, k).value
  }

  /** The database: lines 217-233 of src/txdb.cpp. The empty tree is never stored. */
  function DbMerge(h: Trees, child: map<Key, Entry>, db: map<Key, Tree>): map<Key, Tree> {
    map k | k in child.Keys + db.Keys &&
            (if k in child && child[k].isDirty then child[k].entered && (k != h.EmptyRoot() || k in db) else k in db) ::
      if k in child && child[k].isDirty && k != h.EmptyRoot() then child[k].tree else db[k]
  }

  /** The anchor part of BatchWrite (lines 712-724): the best anchor is copied even if it is null. */
  function Absorb(h: Trees, parent: View, child: map<Key, Entry>, best: Key): View {
    match parent
    case Db(a, b) => Db(DbMerge(h, child, a), if best == NULL then b else best)
    case Cache(base, a, _) => Cache(base, Merge(child, a), best)
  }

  function FlushView(h: Trees, v: View): View
    requires v.Cache?
  {
    v.(base := Absorb(h, v.base, v.anchors, v.best), anchors := map[])
  }

  // ----- the invariant

  ghost predicate EntryOk(h: Trees, base: View, k: Key, e: Entry) {
    && h.root(e.tree) == k
    && (!e.isDirty ==> Shown(e) == AnchorAt(h, base, k))
    && (k == h.EmptyRoot() ==> e.entered)
  }

  /** Every tree sits under its own root, clean entries agree with the parent, and the best anchor is visible. */
  ghost predicate Ok(h: Trees, v: View) {
    && AnchorAt(h, v, BestAt(h, v)).Some?
    && match v
       case Db(a, _) => forall k <- a :: h.root(a[k]) == k
       case Cache(base, a, _) => Ok(h, base) && forall k <- a :: EntryOk(h, base, k, a[k])
  }

  ghost predicate Same(h: Trees, v: View, w: View) {
    && (forall k :: AnchorAt(h, v, k) == AnchorAt(h, w, k))
    && BestAt(h, v) == BestAt(h, w)
  }

  lemma {:induction false} VisibleHasRoot(h: Trees, v: View, k: Key)
    requires Ok(h, v) && AnchorAt(h, v, k).Some?
    ensures h.root(AnchorAt(h, v, k).value) == k
  {
    if v.Cache? && k !in v.anchors { VisibleHasRoot(h, v.base, k); }
    if v.Cache? && k in v.anchors { assert EntryOk(h, v.base, k, v.anchors[k]); }
  }

  lemma {:induction false} EmptyAlwaysVisible(h: Trees, v: View)
    requires Ok(h, v) && h.Hashing()
    ensures AnchorAt(h, v, h.EmptyRoot()) == Some([])
  {
    if v.Cache? {
      EmptyAlwaysVisible(h, v.base);
      var k := h.EmptyRoot();
      if k in v.anchors { assert EntryOk(h, v.base, k, v.anchors[k]); }
    }
  }

  lemma {:induction false} FetchKeeps(h: Trees, v: View, k: Key)
    requires Ok(h, v)
    ensures var (v', r) := Fetch(h, v, k); Ok(h, v') && Same(h, v, v') && r == AnchorAt(h, v, k)
    ensures var (v', r) := Fetch(h, v, k);
            (v'.Cache? <==> v.Cache?) && (v.Cache? ==> Same(h, v.base, v'.base) && v'.best == v.best)
  {
    if v.Cache? && k !in v.anchors {
      FetchKeeps(h, v.base, k);
      var (v', r) := Fetch(h, v, k);
      forall j ensures AnchorAt(h, v, j) == AnchorAt(h, v', j) {
        assert AnchorAt(h, v.base, j) == AnchorAt(h, v'.base, j);
      }
      if r.Some? { VisibleHasRoot(h, v.base, k); }
    }
  }

  lemma {:induction false} GetBestKeeps(h: Trees, v: View)
    requires Ok(h, v) && h.Hashing()
    ensures var (v', r) := GetBest(h, v); Ok(h, v') && Same(h, v, v') && r == BestAt(h, v)
    ensures v.Cache? ==> var v' := GetBest(h, v).0; Same(h, v.base, v'.base) && v'.best == BestAt(h, v) != NULL
  {
    if v.Cache? && v.best == NULL {
      GetBestKeeps(h, v.base);
      var v' := GetBest(h, v).0;
      BestIsRoot(h, v);
      forall j ensures AnchorAt(h, v, j) == AnchorAt(h, v', j) {
        assert AnchorAt(h, v.base, j) == AnchorAt(h, v'.base, j);
      }
    }
  }

  lemma BestIsRoot(h: Trees, v: View)
    requires Ok(h, v) && h.Hashing()
    ensures BestAt(h, v) != NULL
  {
    VisibleHasRoot(h, v, BestAt(h, v));
  }

  // ----- pushing and popping

  lemma PushKeeps(h: Trees, v: View, tree: Tree)
    requires v.Cache? && Ok(h, v) && h.Hashing()
    ensures var v' := PushAnchor(h, v, tree);
            && Ok(h, v') && Same(h, v.base, v'.base)
            && BestAt(h, v') == h.root(tree) && v'.best != NULL
            && AnchorAt(h, v', h.root(tree)) == Some(tree)
            && forall k :: k != h.root(tree) ==> AnchorAt(h, v', k) == AnchorAt(h, v, k)
  {
    GetBestKeeps(h, v);
    var w, v' := GetBest(h, v).0, PushAnchor(h, v, tree);
    if BestAt(h, v) == h.root(tree) {
      VisibleHasRoot(h, v, h.root(tree));
    }
    forall k | k != h.root(tree) ensures AnchorAt(h, v', k) == AnchorAt(h, v, k) {
      assert AnchorAt(h, v', k) == AnchorAt(h, w, k);
    }
    forall k | k in v'.anchors ensures EntryOk(h, v'.base, k, v'.anchors[k]) {
      if k in w.anchors { assert EntryOk(h, w.base, k, w.anchors[k]); }
    }
  }

  /** The best anchor after a pop: a null root leaves the choice to the base. */
  function NextBest(h: Trees, v: View, newrt: Key): Key
    requires v.Cache?
  {
    if newrt == NULL then BestAt(h, v.base) else newrt
  }

  /** The pops that leave a visible best anchor and the empty tree in view. */
  ghost predicate MayPop(h: Trees, v: View, newrt: Key)
    requires v.Cache?
  {
    var next := NextBest(h, v, newrt);
    newrt == BestAt(h, v) ||
    (BestAt(h, v) != h.EmptyRoot() && next != BestAt(h, v) && AnchorAt(h, v, next).Some?)
  }

  /** The assertion in BringBestAnchorIntoCache holds; the old best anchor, and nothing else, leaves the view. */
  lemma PopKeeps(h: Trees, v: View, newrt: Key)
    requires v.Cache? && Ok(h, v) && h.Hashing()
    ensures PopAnchor(h, v, newrt).Some?
    ensures var v' := PopAnchor(h, v, newrt).value;
            && Same(h, v.base, v'.base) && BestAt(h, v') == NextBest(h, v, newrt)
            && (newrt != BestAt(h, v) ==> AnchorAt(h, v', BestAt(h, v)) == None)
            && (forall k :: k != BestAt(h, v) || k == newrt ==> AnchorAt(h, v', k) == AnchorAt(h, v, k))
            && (Ok(h, v') <==> MayPop(h, v, newrt))
  {
    GetBestKeeps(h, v);
    var (w, current) := GetBest(h, v);
    if current != newrt {
      FetchKeeps(h, w, current);
      FetchCaches(h, w, current);
      var x := Fetch(h, w, current).0;
      var v' := PopAnchor(h, v, newrt).value;
      forall k | k != current ensures AnchorAt(h, v', k) == AnchorAt(h, v, k) {
        assert AnchorAt(h, v', k) == AnchorAt(h, x, k) == AnchorAt(h, w, k);
      }
      assert Same(h, w.base, x.base);
      PoppedEntries(h, x, v', current);
    }
  }

  lemma PoppedEntries(h: Trees, x: View, v: View, current: Key)
    requires x.Cache? && v.Cache? && v.base == x.base && Ok(h, x) && current in x.anchors
    requires v.anchors == x.anchors[current := x.anchors[current].(entered := false, isDirty := true)]
    ensures Ok(h, v) <==> AnchorAt(h, v, BestAt(h, v)).Some? && current != h.EmptyRoot()
  {
    assert EntryOk(h, x.base, current, x.anchors[current]);
    if current != h.EmptyRoot() {
      forall k | k in v.anchors ensures EntryOk(h, v.base, k, v.anchors[k]) {
        assert EntryOk(h, x.base, k, x.anchors[k]);
      }
    } else {
      assert !EntryOk(h, v.base, current, v.anchors[current]);
    }
  }

  /** Pushing a tree and popping back restores the view exactly if the tree's root was not in view
      before, or was the best anchor already. */
  lemma PushPopRestores(h: Trees, v: View, tree: Tree)
    requires v.Cache? && Ok(h, v) && h.Hashing()
    ensures var p := PushAnchor(h, v, tree);
            var q := PopAnchor(h, p, BestAt(h, v));
            && q.Some?
            && (Same(h, v, q.value) <==> AnchorAt(h, v, h.root(tree)) == None || h.root(tree) == BestAt(h, v))
  {
    PushKeeps(h, v, tree);
    var p, best := PushAnchor(h, v, tree), BestAt(h, v);
    BestIsRoot(h, v);
    PopKeeps(h, p, best);
    var q := PopAnchor(h, p, best).value;
    if h.root(tree) != best {
      assert AnchorAt(h, q, h.root(tree)) == None;
      assert forall k :: k != h.root(tree) ==> AnchorAt(h, q, k) == AnchorAt(h, v, k);
    } else {
      EqualRoots(h, v, tree);
      assert forall k :: AnchorAt(h, q, k) == AnchorAt(h, v, k);
    }
  }

  lemma EqualRoots(h: Trees, v: View, tree: Tree)
    requires Ok(h, v) && h.Hashing() && AnchorAt(h, v, h.root(tree)).Some?
    ensures AnchorAt(h, v, h.root(tree)) == Some(tree)
  {
    VisibleHasRoot(h, v, h.root(tree));
  }

  // ----- Flush

  lemma MergedOk(h: Trees, v: View, k: Key)
    requires v.Cache? && Ok(h, v) && v.base.Cache? && h.Hashing()
    ensures var m := Merged(v.anchors, v.base.anchors, k);
            if m.Some? then EntryOk(h, v.base.base, k, m.value) && Shown(m.value) == AnchorAt(h, v, k)
            else AnchorAt(h, v.base.base, k) == AnchorAt(h, v, k)
  {
    if k in v.anchors { assert EntryOk(h, v.base, k, v.anchors[k]); }
    if k in v.base.anchors { assert EntryOk(h, v.base.base, k, v.base.anchors[k]); }
  }

  /** Although trees are not copied over existing entries, the parent's anchors become this layer's:
      two trees under one root are one tree. */
  lemma FlushAnchors(h: Trees, v: View, k: Key)
    requires v.Cache? && Ok(h, v) && h.Hashing()
    ensures AnchorAt(h, FlushView(h, v).base, k) == AnchorAt(h, v, k)
    ensures AnchorAt(h, FlushView(h, v), k) == AnchorAt(h, v, k)
  {
    if v.base.Cache? {
      MergedOk(h, v, k);
    } else {
      if k in v.anchors { assert EntryOk(h, v.base, k, v.anchors[k]); }
    }
  }

  /** Why MayPop guards the empty root: the database always shows the empty tree, so a layer that took it
      out of view is not reproduced. This is the only such case. */
  lemma FlushToDbExact(h: Trees, v: View)
    requires v.Cache? && v.base.Db? && h.Hashing() && Ok(h, v.base)
    requires forall k <- v.anchors ::
               h.root(v.anchors[k].tree) == k &&
               (!v.anchors[k].isDirty ==> Shown(v.anchors[k]) == AnchorAt(h, v.base, k))
    ensures (forall k :: AnchorAt(h, FlushView(h, v).base, k) == AnchorAt(h, v, k)) <==>
            !(h.EmptyRoot() in v.anchors && !v.anchors[h.EmptyRoot()].entered)
  {
    var db := FlushView(h, v).base;
    assert AnchorAt(h, db, h.EmptyRoot()) == Some([]);
    forall k | k != h.EmptyRoot() ensures AnchorAt(h, db, k) == AnchorAt(h, v, k) {
    }
    if h.EmptyRoot() in v.anchors && v.anchors[h.EmptyRoot()].entered {
      assert v.anchors[h.EmptyRoot()].tree == [];
    }
  }

  /** The best anchor reaches the parent exactly if it was read or set in this layer, or the parent
      is the database, or the parent's own best anchor is that of its base anyway. */
  ghost predicate BestSurvives(h: Trees, v: View)
    requires v.Cache?
  {
    v.best != NULL || v.base.Db? || BestAt(h, v.base) == BestAt(h, v.base.base)
  }

  lemma FlushBest(h: Trees, v: View)
    requires v.Cache?
    ensures BestAt(h, FlushView(h, v).base) == BestAt(h, v) <==> BestSurvives(h, v)
  {
  }

  /** A case in which it does not: the parent pushed a tree, this layer never looked at it. */
  lemma FlushBestFails(h: Trees, tree: Tree)
    requires h.Hashing() && tree != []
    ensures var parent := PushAnchor(h, Cache(Db(map[], NULL), map[], NULL), tree);
            var v := Cache(parent, map[], NULL);
            Ok(h, v) && BestAt(h, v) == h.root(tree) && BestAt(h, FlushView(h, v).base) == h.EmptyRoot()
  {
    var db := Db(map[], NULL);
    var bottom := Cache(db, map[], NULL);
    assert AnchorAt(h, db, h.EmptyRoot()) == Some([]) && Ok(h, db);
    assert AnchorAt(h, bottom, BestAt(h, bottom)) == AnchorAt(h, db, BestAt(h, db));
    PushKeeps(h, bottom, tree);
    var parent := PushAnchor(h, bottom, tree);
    var v := Cache(parent, map[], NULL);
    assert AnchorAt(h, v, BestAt(h, v)) == AnchorAt(h, parent, BestAt(h, parent));
    assert BestAt(h, FlushView(h, v).base) == BestAt(h, db);
  }

  lemma FlushKeeps(h: Trees, v: View)
    requires v.Cache? && Ok(h, v) && h.Hashing() && BestSurvives(h, v)
    ensures var v' := FlushView(h, v);
            && Ok(h, v') && Same(h, v, v') && Same(h, v, v'.base)
            && (v.base.Cache? <==> v'.base.Cache?)
            && (v.base.Cache? ==> v'.base.base == v.base.base)
  {
    var v' := FlushView(h, v);
    forall k ensures AnchorAt(h, v'.base, k) == AnchorAt(h, v, k) && AnchorAt(h, v', k) == AnchorAt(h, v, k) {
      FlushAnchors(h, v, k);
    }
    FlushBest(h, v);
    if v.base.Cache? {
      forall k | k in v'.base.anchors ensures EntryOk(h, v'.base.base, k, v'.base.anchors[k]) {
        MergedOk(h, v, k);
      }
    } else {
      forall k | k in v'.base.dbAnchors ensures h.root(v'.base.dbAnchors[k]) == k {
        if k in v.anchors { assert EntryOk(h, v.base, k, v.anchors[k]); }
      }
    }
  }

  // ----- whole runs against a stack of flat maps

  datatype Flat = Flat(anchors: map<Key, Tree>, best: Key)

  ghost predicate Matches(h: Trees, v: View, f: Flat) {
    && (forall k :: AnchorAt(h, v, k) == if k in f.anchors then Some(f.anchors[k]) else None)
    && BestAt(h, v) == f.best
  }

  ghost predicate Agree(h: Trees, v: View, stack: seq<Flat>)
    decreases v
  {
    && stack != [] && Matches(h, v, stack[|stack| - 1])
    && (if v.Db? then |stack| == 1 else Agree(h, v.base, stack[..|stack| - 1]))
  }

  datatype Op = GetAnchor(k: Key) | GetBestAnchor | PushTree(tree: Tree) | PopTo(k: Key) | FlushTop | Push | Drop

  ghost predicate Enabled(h: Trees, v: View, op: Op) {
    match op
    case PushTree(_) => v.Cache?
    case PopTo(k) => v.Cache? && MayPop(h, v, k)
    case FlushTop => v.Cache? && BestSurvives(h, v)
    case Drop => v.Cache?
    case _ => true
  }

  ghost function Step(h: Trees, v: View, op: Op): View
    requires Enabled(h, v, op)
  {
    match op
    case GetAnchor(k) => Fetch(h, v, k).0
    case GetBestAnchor => GetBest(h, v).0
    case PushTree(tree) => PushAnchor(h, v, tree)
    case PopTo(k) => var r := PopAnchor(h, v, k); if r.Some? then r.value else v
    case FlushTop => FlushView(h, v)
    case Push => Cache(v, map[], NULL)
    case Drop => v.base
  }

  function FlatStep(h: Trees, stack: seq<Flat>, op: Op): (r: seq<Flat>)
    requires stack != [] && (op.PopTo? || op.FlushTop? || op.Drop? ==> |stack| > 1)
    ensures r != []
  {
    var n := |stack| - 1;
    var top := stack[n];
    match op
    case GetAnchor(_) => stack
    case GetBestAnchor => stack
    case PushTree(tree) => stack[n := Flat(top.anchors[h.root(tree) := tree], h.root(tree))]
    case PopTo(k) => stack[n := Flat(if k == top.best then top.anchors else top.anchors - {top.best},
                                     if k == NULL then stack[n - 1].best else k)]
    case FlushTop => stack[n - 1 := top]
    case Push => stack + [top]
    case Drop => stack[..n]
  }

  lemma {:induction false} ReadAgrees(h: Trees, v: View, k: Key, stack: seq<Flat>)
    requires Ok(h, v) && h.Hashing() && Agree(h, v, stack)
    ensures Agree(h, Fetch(h, v, k).0, stack)
    decreases v
  {
    FetchKeeps(h, v, k);
    if v.Cache? && k !in v.anchors { ReadAgrees(h, v.base, k, stack[..|stack| - 1]); }
  }

  lemma {:induction false} BestAgrees(h: Trees, v: View, stack: seq<Flat>)
    requires Ok(h, v) && h.Hashing() && Agree(h, v, stack)
    ensures Agree(h, GetBest(h, v).0, stack)
    decreases v
  {
    GetBestKeeps(h, v);
    if v.Cache? && v.best == NULL { BestAgrees(h, v.base, stack[..|stack| - 1]); }
  }

  lemma {:induction false} AgreeDepth(h: Trees, v: View, stack: seq<Flat>)
    requires Agree(h, v, stack)
    ensures v.Cache? <==> |stack| > 1
    decreases v
  {
    if v.Cache? { AgreeDepth(h, v.base, stack[..|stack| - 1]); }
  }

  lemma PushAgrees(h: Trees, v: View, tree: Tree, stack: seq<Flat>)
    requires v.Cache? && Ok(h, v) && h.Hashing() && Agree(h, v, stack)
    ensures Agree(h, PushAnchor(h, v, tree), FlatStep(h, stack, PushTree(tree)))
  {
    PushKeeps(h, v, tree);
    BestAgrees(h, v, stack);
    var n := |stack| - 1;
    var stack' := FlatStep(h, stack, PushTree(tree));
    assert stack'[..n] == stack[..n];
    assert PushAnchor(h, v, tree).base == GetBest(h, v).0.base;
    assert Matches(h, PushAnchor(h, v, tree), stack'[n]);
  }

  lemma PopAgrees(h: Trees, v: View, k: Key, stack: seq<Flat>)
    requires v.Cache? && Ok(h, v) && h.Hashing() && Agree(h, v, stack) && |stack| > 1
    ensures PopAnchor(h, v, k).Some?
    ensures Agree(h, PopAnchor(h, v, k).value, FlatStep(h, stack, PopTo(k)))
  {
    PopKeeps(h, v, k);
    BestAgrees(h, v, stack);
    GetBestKeeps(h, v);
    var (w, current) := GetBest(h, v);
    ReadAgrees(h, w, current, stack);
    var n := |stack| - 1;
    var v', stack' := PopAnchor(h, v, k).value, FlatStep(h, stack, PopTo(k));
    assert stack'[..n] == stack[..n];
    assert Matches(h, v', stack'[n]);
    assert v'.base == if current == k then w.base else Fetch(h, w, current).0.base;
  }

  lemma FlushAgrees(h: Trees, v: View, stack: seq<Flat>)
    requires v.Cache? && Ok(h, v) && h.Hashing() && Agree(h, v, stack) && BestSurvives(h, v)
    ensures |stack| > 1 && Agree(h, FlushView(h, v), FlatStep(h, stack, FlushTop))
  {
    AgreeDepth(h, v, stack);
    AgreeDepth(h, v.base, stack[..|stack| - 1]);
    FlushKeeps(h, v);
    var n := |stack| - 1;
    var stack' := FlatStep(h, stack, FlushTop);
    assert stack'[..n][..n - 1] == stack[..n][..n - 1];
    assert Matches(h, FlushView(h, v).base, stack'[..n][n - 1]);
    assert Matches(h, FlushView(h, v), stack'[n]);
  }

  lemma StepRefines(h: Trees, v: View, op: Op, stack: seq<Flat>)
    requires Ok(h, v) && h.Hashing() && Agree(h, v, stack) && Enabled(h, v, op)
    ensures op.PopTo? || op.FlushTop? || op.Drop? ==> |stack| > 1
    ensures Ok(h, Step(h, v, op)) && Agree(h, Step(h, v, op), FlatStep(h, stack, op))
  {
    AgreeDepth(h, v, stack);
    match op
    case GetAnchor(k) => FetchKeeps(h, v, k); ReadAgrees(h, v, k, stack);
    case GetBestAnchor => GetBestKeeps(h, v); BestAgrees(h, v, stack);
    case PushTree(tree) => PushKeeps(h, v, tree); PushAgrees(h, v, tree, stack);
    case PopTo(k) => PopKeeps(h, v, k); PopAgrees(h, v, k, stack);
    case FlushTop => FlushKeeps(h, v); FlushAgrees(h, v, stack);
    case Push =>
      var w := Cache(v, map[], NULL);
      assert forall k :: AnchorAt(h, w, k) == AnchorAt(h, v, k);
      assert (stack + [stack[|stack| - 1]])[..|stack|] == stack;
    case Drop =>
  }

  ghost predicate CanRun(h: Trees, v: View, ops: seq<Op>)
    decreases |ops|
  {
    ops == [] || (Enabled(h, v, ops[0]) && CanRun(h, Step(h, v, ops[0]), ops[1..]))
  }

  ghost function Run(h: Trees, v: View, ops: seq<Op>): View
    requires CanRun(h, v, ops)
    decreases |ops|
  {
    if ops == [] then v else Run(h, Step(h, v, ops[0]), ops[1..])
  }

  /** Main result: over any run, every layer equals a flat map of anchors with one best anchor among them. */
  lemma {:induction false} RunRefines(h: Trees, v: View, ops: seq<Op>, stack: seq<Flat>) returns (stack': seq<Flat>)
    requires Ok(h, v) && h.Hashing() && Agree(h, v, stack) && CanRun(h, v, ops)
    ensures Ok(h, Run(h, v, ops)) && Agree(h, Run(h, v, ops), stack')
    ensures stack' != [] && stack'[|stack'| - 1].best in stack'[|stack'| - 1].anchors
    ensures FlatReaches(h, stack, ops, stack')
    decreases |ops|
  {
    if ops == [] {
      stack' := stack;
    } else {
      StepRefines(h, v, ops[0], stack);
      stack' := RunRefines(h, Step(h, v, ops[0]), ops[1..], FlatStep(h, stack, ops[0]));
    }
  }

  ghost predicate FlatReaches(h: Trees, stack: seq<Flat>, ops: seq<Op>, stack': seq<Flat>)
    decreases |ops|
  {
    if ops == [] then stack' == stack
    else && stack != [] && (ops[0].PopTo? || ops[0].FlushTop? || ops[0].Drop? ==> |stack| > 1)
         && FlatReaches(h, FlatStep(h, stack, ops[0]), ops[1..], stack')
  }

  /** The loop of BatchWriteAnchors. */
  method BatchWriteAnchors(mapAnchors: map<Key, Entry>, parent: map<Key, Entry>)
    returns (cacheAnchors: map<Key, Entry>)
    ensures cacheAnchors == Merge(mapAnchors, parent)
  {
    var rest := mapAnchors;
    cacheAnchors := parent;
    while rest != map[]
      invariant rest.Keys <= mapAnchors.Keys && forall k <- rest :: rest[k] == mapAnchors[k]
      invariant forall k <- rest :: k in cacheAnchors <==> k in parent
      invariant forall k <- rest :: k in parent ==> cacheAnchors[k] == parent[k]
      invariant forall k :: k !in rest ==>
        (if k in cacheAnchors then Some(cacheAnchors[k]) else None) == Merged(mapAnchors, parent, k)
      decreases rest.Keys
    {
      var k :| k in rest;
      var e := rest[k];
      if e.isDirty {
        if k !in cacheAnchors {
          cacheAnchors := cacheAnchors[k := Entry(e.entered, e.tree, true)];
        } else if cacheAnchors[k].entered != e.entered {
          cacheAnchors := cacheAnchors[k := cacheAnchors[k].(entered := e.entered, isDirty := true)];
        }
      }
      rest := rest - {k};
    }
    var merged := Merge(mapAnchors, parent);
    forall k ensures (k in cacheAnchors <==> k in merged) && (k in merged ==> cacheAnchors[k] == merged[k]) {
      assert (if k in cacheAnchors then Some(cacheAnchors[k]) else None) == Merged(mapAnchors, parent, k);
    }
    assert cacheAnchors.Keys == merged.Keys;
  }
}
