/** `CAddrMan` as an object: the operations of src/addrman.cpp, in place, proved against AddrBook. */
module AddrMan {
  import opened AddrBook
  import opened AddrDisk

  /** The occupied slots of a bucket table; -1 marks a free one. */
  ghost function TableOf(t: array2<int>): (m: map<Slot, int>)
    reads t
    ensures forall b, i :: 0 <= b < t.Length0 && 0 <= i < t.Length1 ==>
              (Slot(b, i) in m <==> t[b, i] != -1) && (Slot(b, i) in m ==> m[Slot(b, i)] == t[b, i])
    ensures forall s <- m :: 0 <= s.bucket < t.Length0 && 0 <= s.pos < t.Length1
  {
    map b, i | 0 <= b < t.Length0 && 0 <= i < t.Length1 && t[b, i] != -1 :: Slot(b, i) := t[b, i]
  }

  method SetSlot(t: array2<int>, s: Slot, id: int)
    requires 0 <= s.bucket < t.Length0 && 0 <= s.pos < t.Length1
    modifies t
    ensures TableOf(t) == if id == -1 then old(TableOf(t)) - {s} else old(TableOf(t))[s := id]
  {
    ghost var m := TableOf(t);
    t[s.bucket, s.pos] := id;
    var m' := if id == -1 then m - {s} else m[s := id];
    forall x ensures (x in TableOf(t) <==> x in m') && (x in m' ==> TableOf(t)[x] == m'[x]) {
      if 0 <= x.bucket < t.Length0 && 0 <= x.pos < t.Length1 {
        assert x == Slot(x.bucket, x.pos);
      }
    }
    assert TableOf(t).Keys == m'.Keys;
  }

  // ----- the order in which the code evicts, and the order in which AddrBook says it

  /** A change to one entry that its place in vRandom has no part in. */
  ghost predicate Flip(b: Book, c: Book, id: int, info: Info) {
    && id in b.mapInfo && info.nRandomPos == b.mapInfo[id].nRandomPos && info.Ip() == b.mapInfo[id].Ip()
    && c == Put(b, id, info).(vvTried := c.vvTried, nTried := c.nTried, nNew := c.nNew)
  }

  lemma FlipIndexed(b: Book, c: Book, id: int, info: Info)
    requires Indexed(b) && Flip(b, c, id, info)
    ensures Indexed(c)
  {
    PutIndexed(b, id, info);
    assert c == Put(b, id, info).(vvNew := b.vvNew, vvTried := c.vvTried, nTried := c.nTried, nNew := c.nNew);
  }

  /** What stays of the flip of entry id after vRandom was rearranged. */
  ghost predicate Flipped(b: Book, c: Book, id: int, info: Info, nNew: int) {
    && id in b.mapInfo
    && c.mapInfo == b.mapInfo[id := info.(nRandomPos := b.mapInfo[id].nRandomPos)]
    && c.mapAddr == b.mapAddr && c.vRandom == b.vRandom && c.nIdCount == b.nIdCount
    && c.vvNew == b.vvNew && c.nNew == b.nNew + nNew && c.nKey == b.nKey && c.asmap == b.asmap
  }

  lemma FlipSwap(b: Book, c: Book, id: int, info: Info, p: nat, q: nat)
    requires Indexed(b) && Flip(b, c, id, info) && p < |b.vRandom| && q < |b.vRandom|
    ensures PosIndexed(b, p) && PosIndexed(b, q) && PosIndexed(c, p) && PosIndexed(c, q)
    ensures Flipped(SwapRandom(b, p, q), SwapRandom(c, p, q), id, info, c.nNew - b.nNew)
    ensures SwapRandom(c, p, q).vvTried == c.vvTried && SwapRandom(c, p, q).nTried == c.nTried
  {
    FlipIndexed(b, c, id, info);
    assert PosIndexed(b, p) && PosIndexed(b, q) && PosIndexed(c, p) && PosIndexed(c, q);
    var x, y := SwapRandom(b, p, q), SwapRandom(c, p, q);
    assert y.mapInfo == x.mapInfo[id := info.(nRandomPos := x.mapInfo[id].nRandomPos)];
  }

  lemma FlipClear(b: Book, c: Book, id: int, info: Info, s: Slot)
    requires Indexed(b) && Flip(b, c, id, info)
    requires s in b.vvNew ==> b.vvNew[s] in b.mapInfo && b.vvNew[s] != id
    ensures Indexed(c) && Flipped(ClearNew(b, s), ClearNew(c, s), id, info, c.nNew - b.nNew)
    ensures ClearNew(c, s).vvTried == c.vvTried && ClearNew(c, s).nTried == c.nTried
  {
    FlipIndexed(b, c, id, info);
    if s in b.vvNew {
      var d := b.vvNew[s];
      var less := b.mapInfo[d].(nRefCount := b.mapInfo[d].nRefCount - 1);
      var b', c' := Put(b, d, less).(vvNew := b.vvNew - {s}), Put(c, d, less).(vvNew := b.vvNew - {s});
      PutIndexed(b, d, less);
      assert b' == Put(b, d, less).(vvNew := b.vvNew - {s}, vvTried := b.vvTried, nTried := b.nTried, nNew := b.nNew);
      assert c'.mapInfo == b'.mapInfo[id := info];
      assert Flip(b', c', id, info);
      if less.nRefCount == 0 {
        FlipDelete(b', c', id, info, d);
      }
    }
  }

  lemma FlipDelete(b: Book, c: Book, id: int, info: Info, d: int)
    requires Indexed(b) && Flip(b, c, id, info) && d in b.mapInfo && d != id
    ensures Indexed(c) && Flipped(Delete(b, d), Delete(c, d), id, info, c.nNew - b.nNew)
    ensures Delete(c, d).vvTried == c.vvTried && Delete(c, d).nTried == c.nTried
  {
    FlipIndexed(b, c, id, info);
    assert IdIndexed(b, d) && IdIndexed(c, d);
    var last := |b.vRandom| - 1;
    var p := b.mapInfo[d].nRandomPos;
    FlipSwap(b, c, id, info, p, last);
    var x, y := Delete(b, d), Delete(c, d);
    assert y.mapInfo == x.mapInfo[id := info.(nRandomPos := x.mapInfo[id].nRandomPos)];
  }

  /** What Add does with an address it knows. */
  lemma AddKnownIs(e: Env, b: Book, addr: Address, source: NetAddr, nTimePenalty: int, nNow: int, luck: bool)
    requires Inv(e, b) && addr.svc.ip in b.mapAddr && e.valid(addr.svc.ip) && e.publicRange(addr.svc.ip)
    ensures b.mapAddr[addr.svc.ip] in b.mapInfo
    ensures var id := b.mapAddr[addr.svc.ip];
            var info := Refresh(b.mapInfo[id], addr, nTimePenalty, nNow);
            var c := Put(b, id, info);
            && Weak(e, c, {id}) && 0 <= info.nRefCount
            && AddrBook.Add(e, b, addr, source, nTimePenalty, nNow, luck)
               == if WantsMore(info, addr, luck) then Place(e, c, id, source, nNow) else (c, false)
  {
    var id := b.mapAddr[addr.svc.ip];
    assert AddrIndexed(b, addr.svc.ip) && EntryOk(e, b, id, {});
    var info := Refresh(b.mapInfo[id], addr, nTimePenalty, nNow);
    PutStatsKeeps(e, b, id, info, {});
    WidenPending(e, Put(b, id, info), {}, {id});
  }

  lemma MakeTriedIs(e: Env, b: Book, id: int)
    requires Inv(e, b) && id in b.mapInfo && !b.mapInfo[id].fInTried
    ensures id != -1 && Weak(e, ClearSlots(b, id), {id}) && SlotsOf(ClearSlots(b, id).vvNew, id) == {}
    ensures var c := ClearSlots(b, id);
            var s := TriedSlot(e, c, c.mapInfo[id]);
            if s in c.vvTried then
              && Evictable(e, c, c.vvTried[s]) && id in Demote(e, c, c.vvTried[s]).mapInfo
              && AddrBook.MakeTried(e, b, id) == Promote(e, Demote(e, c, c.vvTried[s]), id)
            else AddrBook.MakeTried(e, b, id) == Promote(e, c, id)
  {
    ClearSlotsKeeps(e, b, id);
    assert IdIndexed(b, id);
    var c := ClearSlots(b, id);
    var s := TriedSlot(e, c, c.mapInfo[id]);
    if s in c.vvTried {
      EvictableOk(e, c, s, id);
      EvictFacts(e, c, c.vvTried[s], id);
    }
  }

  /** x is a tried entry, so no slot of the new table holds it. */
  ghost predicate Evictable(e: Env, c: Book, x: int) {
    && Indexed(c) && x in c.mapInfo && c.mapInfo[x].fInTried
    && forall s <- c.vvNew :: c.vvNew[s] in c.mapInfo && c.vvNew[s] != x
  }

  lemma EvictableOk(e: Env, c: Book, s: Slot, id: int)
    requires Weak(e, c, {id}) && s in c.vvTried
    ensures Evictable(e, c, c.vvTried[s]) && s == TriedSlot(e, c, c.mapInfo[c.vvTried[s]])
  {
    assert TriedSlotOk(e, c, s);
    forall x | x in c.vvNew ensures c.vvNew[x] in c.mapInfo && c.vvNew[x] != c.vvTried[s] {
      assert NewSlotOk(e, c, x);
    }
  }

  /** Lines 218 and 233-236. */
  ghost function Unmarked(e: Env, c: Book, x: int): Book
    requires x in c.mapInfo
  {
    Put(c, x, c.mapInfo[x].(fInTried := false)).(
      vvTried := c.vvTried - {TriedSlot(e, c, c.mapInfo[x])}, nTried := c.nTried - 1, nNew := c.nNew - 1)
  }

  /** Unmarking the entry before or after ClearNew comes to the same. */
  lemma EvictOrder(e: Env, c: Book, x: int, id: int)
    requires Evictable(e, c, x)
    ensures var b, home := Unmarked(e, c, x), Home(e, c, x);
            && Indexed(b) && (home in b.vvNew ==> b.vvNew[home] in b.mapInfo)
            && x in AddrBook.ClearNew(b, home).mapInfo
            && var d, f := Demote(e, c, x), AddrBook.ClearNew(b, home);
               d.(nNew := d.nNew - 1) ==
               Put(f, x, f.mapInfo[x].(nRefCount := 1)).(vvNew := f.vvNew[home := x], nNew := f.nNew + 1)
  {
    var b, home, info := Unmarked(e, c, x), Home(e, c, x), c.mapInfo[x].(fInTried := false);
    FlipClear(c, b, x, info, home);
    ClearNewSpares(c, home, x);
    var d, f, g := Demote(e, c, x), AddrBook.ClearNew(b, home), AddrBook.ClearNew(c, home);
    assert g.mapInfo[x].(fInTried := false, nRefCount := 1) == f.mapInfo[x].(nRefCount := 1) by {
      KeptInfo(c, home, x);
    }
    assert d.mapInfo == f.mapInfo[x := f.mapInfo[x].(nRefCount := 1)];
  }

  /** ClearNew leaves all of another entry but its position. */
  lemma KeptInfo(c: Book, s: Slot, x: int)
    requires Indexed(c) && x in c.mapInfo && (s in c.vvNew ==> c.vvNew[s] in c.mapInfo && c.vvNew[s] != x)
    ensures x in AddrBook.ClearNew(c, s).mapInfo
    ensures var f := AddrBook.ClearNew(c, s).mapInfo[x]; f == c.mapInfo[x].(nRandomPos := f.nRandomPos)
    ensures AddrBook.ClearNew(c, s).vvTried == c.vvTried && AddrBook.ClearNew(c, s).nTried == c.nTried
  {
  }

  lemma HolderFacts(e: Env, c: Book, x: int, home: Slot, id: int)
    requires Weak(e, c, {id}) && Evictable(e, c, x) && home in c.vvNew
    ensures c.vvNew[home] in c.mapInfo && c.vvNew[home] != x
    ensures var m := c.mapInfo[x := c.mapInfo[x].(fInTried := false)];
            !m[c.vvNew[home]].fInTried && m[c.vvNew[home]].nRefCount > 0
  {
    HolderOk(e, c, home, id);
  }

  lemma HolderOk(e: Env, b: Book, s: Slot, id: int)
    requires Weak(e, b, {id}) && s in b.vvNew
    ensures b.vvNew[s] in b.mapInfo && !b.mapInfo[b.vvNew[s]].fInTried && b.mapInfo[b.vvNew[s]].nRefCount > 0
  {
    assert NewSlotOk(e, b, s) && EntryOk(e, b, b.vvNew[s], {id});
    assert s in SlotsOf(b.vvNew, b.vvNew[s]);
  }

  /** The promoted entry survives the eviction, and its tried slot is where it was. */
  lemma EvictFacts(e: Env, c: Book, x: int, id: int)
    requires Weak(e, c, {id}) && Evictable(e, c, x) && id in c.mapInfo && x != id && SlotsOf(c.vvNew, id) == {}
    ensures id in Demote(e, c, x).mapInfo
    ensures TriedSlot(e, Demote(e, c, x), Demote(e, c, x).mapInfo[id]) == TriedSlot(e, c, c.mapInfo[id])
  {
    DemoteKeeps(e, c, x, {id});
    DemoteContents(e, c, x, {id});
    EvictSparesId(e, c, x, id);
    assert Core(Demote(e, c, x).mapInfo[id]) == Core(c.mapInfo[id]);
  }

  lemma SwapOnly(e: Env, c: Book, p: nat, q: nat, b: Book)
    requires Inv(e, c) && SameButPos(c.mapInfo, b.mapInfo) && p < |c.vRandom| && q < |c.vRandom|
    ensures PosIndexed(c, p) && PosIndexed(c, q)
    ensures Inv(e, AddrBook.SwapRandom(c, p, q)) && SameButPos(AddrBook.SwapRandom(c, p, q).mapInfo, b.mapInfo)
  {
    SwapKeeps(e, c, p, q, {});
    SwapIndexed(c, p, q);
    var d := AddrBook.SwapRandom(c, p, q);
    forall id | id in d.mapInfo ensures d.mapInfo[id] == b.mapInfo[id].(nRandomPos := d.mapInfo[id].nRandomPos) {
      assert c.mapInfo[id] == b.mapInfo[id].(nRandomPos := c.mapInfo[id].nRandomPos);
    }
  }

  /** Loading a tried entry counts up nTried and looks at it not. */
  lemma LoadTriedFrame(e: Env, b: Book, x: Entry, k: int)
    ensures var c, d := LoadTried(e, b, x), LoadTried(e, b.(nTried := k), x);
            d == c.(nTried := d.nTried) && d.nTried - k == c.nTried - b.nTried
  {
  }

  lemma {:induction false} LoadNewsFrame(c: Book, xs: seq<Entry>, k: int)
    ensures LoadNews(c.(nTried := k), xs) == LoadNews(c, xs).(nTried := k)
    ensures LoadNews(c, xs).nTried == c.nTried
    ensures |LoadNews(c, xs).vRandom| == |c.vRandom| + |xs|
    ensures LoadNews(c, xs).nIdCount == if xs == [] then c.nIdCount else |c.vRandom| + |xs|
  {
    if xs != [] { LoadNewsFrame(c, xs[..|xs| - 1], k); }
  }

  /** The numbers under which the holders of the slots are written. */
  ghost predicate AreIndices(b: Book, slots: seq<Slot>, indices: seq<int>) {
    |indices| == |slots| && forall k :: 0 <= k < |slots| ==> slots[k] in b.vvNew && indices[k] == Rank(b, b.vvNew[slots[k]])
  }

  lemma IndexMore(b: Book, slots: seq<Slot>, indices: seq<int>, s: Slot)
    requires AreIndices(b, slots, indices) && s in b.vvNew
    ensures AreIndices(b, slots + [s], indices + [Rank(b, b.vvNew[s])])
  {
  }

  class CAddrMan {
    const env: Env
    const vvTried: array2<int>
    const vvNew: array2<int>
    var nKey: nat
    var m_asmap: seq<bool>
    var nIdCount: int
    var mapInfo: map<int, Info>
    var mapAddr: map<NetAddr, int>
    var vRandom: seq<int>
    var nTried: int
    var nNew: int

    ghost predicate Shape() {
      && vvTried.Length0 == TRIED_BUCKET_COUNT && vvTried.Length1 == BUCKET_SIZE
      && vvNew.Length0 == NEW_BUCKET_COUNT && vvNew.Length1 == BUCKET_SIZE
      && vvTried != vvNew
    }

    ghost function Value(): Book
      reads this, vvTried, vvNew
    {
      Book(nKey, m_asmap, nIdCount, mapInfo, mapAddr, vRandom, nTried, nNew, TableOf(vvTried), TableOf(vvNew))
    }

    function TriedSlotOf(info: Info): (s: Slot)
      reads this, vvTried, vvNew
      ensures s == TriedSlot(env, Value(), info)
    {
      var bucket := env.triedHash(nKey, m_asmap, info.addr.svc) % TRIED_BUCKET_COUNT;
      Slot(bucket, env.posHash(nKey, false, bucket, info.addr.svc) % BUCKET_SIZE)
    }

    function NewSlotOf(info: Info, source: NetAddr): (s: Slot)
      reads this, vvTried, vvNew
      ensures s == NewSlot(env, Value(), info, source)
    {
      var bucket := env.newHash(nKey, m_asmap, info.Ip(), source) % NEW_BUCKET_COUNT;
      Slot(bucket, env.posHash(nKey, true, bucket, info.addr.svc) % BUCKET_SIZE)
    }

    constructor (env: Env, nKey: nat)
      ensures Shape() && Value() == Clear(Value(), nKey) && m_asmap == [] && this.env == env
      ensures fresh(vvTried) && fresh(vvNew)
    {
      this.env := env;
      vvTried := new int[TRIED_BUCKET_COUNT, BUCKET_SIZE]((_, _) => -1);
      vvNew := new int[NEW_BUCKET_COUNT, BUCKET_SIZE]((_, _) => -1);
      m_asmap := [];
      this.nKey, nIdCount, nTried, nNew := nKey, 0, 0, 0;
      mapInfo, mapAddr, vRandom := map[], map[], [];
      new;
      assert TableOf(vvTried) == map[] && TableOf(vvNew) == map[];
    }

    method ClearAll(nKey: nat)
      requires Shape()
      modifies this, vvTried, vvNew
      ensures Value() == Clear(old(Value()), nKey)
    {
      vRandom := [];
      this.nKey := nKey;
      EmptyTable(vvNew);
      EmptyTable(vvTried);
      nIdCount, nTried, nNew := 0, 0, 0;
      mapInfo, mapAddr := map[], map[];
    }

    /** Lines 139-161. */
    method SwapRandom(p: nat, q: nat)
      requires p < |vRandom| && q < |vRandom| && vRandom[p] in mapInfo && vRandom[q] in mapInfo
      modifies this
      ensures Value() == AddrBook.SwapRandom(old(Value()), p, q)
    {
      if p == q { return; }
      var nId1, nId2 := vRandom[p], vRandom[q];
      mapInfo := mapInfo[nId1 := mapInfo[nId1].(nRandomPos := q)];
      mapInfo := mapInfo[nId2 := mapInfo[nId2].(nRandomPos := p)];
      vRandom := vRandom[p := nId2];
      vRandom := vRandom[q := nId1];
    }

    /** Lines 163-180. */
    method Delete(nId: int)
      requires Placed(Value()) && nId in mapInfo
      requires !mapInfo[nId].fInTried && mapInfo[nId].nRefCount == 0
      modifies this
      ensures Value() == AddrBook.Delete(old(Value()), nId)
    {
      ghost var b := Value();
      assert IdPlaced(b, nId) && PosIndexed(b, |vRandom| - 1);
      var info := mapInfo[nId];
      SwapRandom(info.nRandomPos, |vRandom| - 1);
      ghost var s := Value();
      vRandom := vRandom[..|vRandom| - 1];
      mapAddr := mapAddr - {info.Ip()};
      mapInfo := mapInfo - {nId};
      nNew := nNew - 1;
      assert s == AddrBook.SwapRandom(b, info.nRandomPos, |b.vRandom| - 1);
    }

    /** Lines 182-201. */
    method ClearNew(s: Slot)
      requires Shape() && Indexed(Value()) && 0 <= s.bucket < NEW_BUCKET_COUNT && 0 <= s.pos < BUCKET_SIZE
      requires vvNew[s.bucket, s.pos] != -1 ==>
                 var id := vvNew[s.bucket, s.pos]; id in mapInfo && !mapInfo[id].fInTried && mapInfo[id].nRefCount > 0
      modifies this, vvNew
      ensures Value() == AddrBook.ClearNew(old(Value()), s)
    {
      ghost var b := Value();
      if vvNew[s.bucket, s.pos] != -1 {
        assert s == Slot(s.bucket, s.pos) && s in b.vvNew;
        var nIdDelete := vvNew[s.bucket, s.pos];
        var info := mapInfo[nIdDelete].(nRefCount := mapInfo[nIdDelete].nRefCount - 1);
        mapInfo := mapInfo[nIdDelete := info];
        SetSlot(vvNew, s, -1);
        if info.nRefCount == 0 {
          PutIndexed(b, nIdDelete, info);
          assert Value() == Put(b, nIdDelete, info).(vvNew := Value().vvNew, vvTried := b.vvTried, nTried := b.nTried, nNew := b.nNew);
          Delete(nIdDelete);
        }
      } else {
        assert s == Slot(s.bucket, s.pos) && s !in b.vvNew;
      }
    }

    /** Lines 207-217: the entry leaves the new table. */
    method LeaveNewBuckets(nId: int)
      requires Shape() && Inv(env, Value()) && nId in mapInfo && !mapInfo[nId].fInTried
      modifies this`mapInfo, vvNew
      ensures Value() == ClearSlots(old(Value()), nId)
    {
      ghost var b := Value();
      var info := mapInfo[nId];
      assert EntryOk(env, b, nId, {});
      forall s | s in SlotsOf(TableOf(vvNew), nId) ensures s == PosIn(env, nKey, info.addr.svc, s.bucket) {
        assert NewSlotOk(env, b, s);
      }
      var startBucket := env.newHash(nKey, m_asmap, info.Ip(), info.source) % NEW_BUCKET_COUNT;
      var nRefCount := RemoveAround(vvNew, env, nKey, info.addr.svc, startBucket, nId, info.nRefCount);
      mapInfo := mapInfo[nId := info.(nRefCount := nRefCount)];
    }

    /** Lines 229-236; c is the book at this point but for the nNew of line 218. */
    method UnmarkTried(s: Slot, ghost c: Book) returns (nIdEvict: int)
      requires Shape() && Value() == c.(nNew := c.nNew - 1)
      requires s in c.vvTried && c.vvTried[s] in c.mapInfo && s == TriedSlot(env, c, c.mapInfo[c.vvTried[s]])
      modifies this, vvTried
      ensures nIdEvict == c.vvTried[s] && Value() == Unmarked(env, c, nIdEvict)
    {
      assert s == Slot(s.bucket, s.pos);
      nIdEvict := vvTried[s.bucket, s.pos];
      mapInfo := mapInfo[nIdEvict := mapInfo[nIdEvict].(fInTried := false)];
      SetSlot(vvTried, s, -1);
      nTried := nTried - 1;
    }

    /** Lines 239-247. */
    method ReenterNew(nIdEvict: int, ghost c: Book, ghost id: int)
      requires Shape() && Weak(env, c, {id}) && Evictable(env, c, nIdEvict)
      requires Value() == Unmarked(env, c, nIdEvict)
      modifies this, vvNew
      ensures var d := Demote(env, c, nIdEvict); Value() == d.(nNew := d.nNew - 1)
    {
      assert IdIndexed(c, nIdEvict);
      EvictOrder(env, c, nIdEvict, id);
      var home := ClearHome(nIdEvict, c, id);
      EnterAgain(home, nIdEvict, mapInfo[nIdEvict].(nRefCount := 1));
    }

    /** Lines 239-241. */
    method ClearHome(nIdEvict: int, ghost c: Book, ghost id: int) returns (home: Slot)
      requires Shape() && Weak(env, c, {id}) && Evictable(env, c, nIdEvict) && nIdEvict in c.mapInfo
      requires Value() == Unmarked(env, c, nIdEvict) && Indexed(Value())
      modifies this, vvNew
      ensures home == Home(env, c, nIdEvict) && 0 <= home.bucket < NEW_BUCKET_COUNT && 0 <= home.pos < BUCKET_SIZE
      ensures Value() == AddrBook.ClearNew(Unmarked(env, c, nIdEvict), home)
    {
      home := NewSlotOf(mapInfo[nIdEvict], mapInfo[nIdEvict].source);
      assert home == Home(env, c, nIdEvict) == Slot(home.bucket, home.pos);
      if home in c.vvNew { HolderFacts(env, c, nIdEvict, home, id); }
      ClearNew(home);
    }

    method EnterAgain(s: Slot, nId: int, info: Info)
      requires Shape() && 0 <= s.bucket < NEW_BUCKET_COUNT && 0 <= s.pos < BUCKET_SIZE && nId != -1
      modifies this, vvNew
      ensures Value() == Put(old(Value()), nId, info).(vvNew := old(Value()).vvNew[s := nId], nNew := old(nNew) + 1)
    {
      EnterSlot(s, nId, info);
      nNew := nNew + 1;
    }

    /** Note the entry's new data and put it in the slot. */
    method EnterSlot(s: Slot, nId: int, info: Info)
      requires Shape() && 0 <= s.bucket < NEW_BUCKET_COUNT && 0 <= s.pos < BUCKET_SIZE && nId != -1
      modifies this, vvNew
      ensures Value() == Put(old(Value()), nId, info).(vvNew := old(Value()).vvNew[s := nId])
    {
      mapInfo := mapInfo[nId := info];
      SetSlot(vvNew, s, nId);
    }

    /** Lines 203-254. */
    method MakeTried(nId: int)
      requires Shape() && Inv(env, Value()) && nId in mapInfo && !mapInfo[nId].fInTried
      modifies this, vvTried, vvNew
      ensures Value() == AddrBook.MakeTried(env, old(Value()), nId)
    {
      MakeTriedIs(env, Value(), nId);
      ghost var c := ClearSlots(Value(), nId);
      LeaveNewBuckets(nId);
      nNew := nNew - 1;
      assert mapInfo[nId].nRefCount == 0;
      var s := TriedSlotOf(mapInfo[nId]);
      assert s == TriedSlot(env, c, c.mapInfo[nId]) == Slot(s.bucket, s.pos);
      if vvTried[s.bucket, s.pos] != -1 {
        c := EvictHolder(s, c, nId);
      }
      EnterTried(s, nId, c);
    }

    /** Lines 223-248. */
    method EvictHolder(s: Slot, ghost c: Book, ghost id: int) returns (ghost d: Book)
      requires Shape() && Weak(env, c, {id}) && Value() == c.(nNew := c.nNew - 1)
      requires id in c.mapInfo && !c.mapInfo[id].fInTried && SlotsOf(c.vvNew, id) == {}
      requires s in c.vvTried && s == TriedSlot(env, c, c.mapInfo[id])
      modifies this, vvTried, vvNew
      ensures Evictable(env, c, c.vvTried[s])
      ensures d == Demote(env, c, c.vvTried[s]) && Value() == d.(nNew := d.nNew - 1)
      ensures id in d.mapInfo && s == TriedSlot(env, d, d.mapInfo[id])
    {
      EvictableOk(env, c, s, id);
      var nIdEvict := UnmarkTried(s, c);
      ReenterNew(nIdEvict, c, id);
      EvictFacts(env, c, nIdEvict, id);
      d := Demote(env, c, nIdEvict);
    }

    /** Lines 249-253. */
    method EnterTried(s: Slot, nId: int, ghost c: Book)
      requires Shape() && Value() == c.(nNew := c.nNew - 1)
      requires nId in c.mapInfo && nId != -1 && s == TriedSlot(env, c, c.mapInfo[nId])
      modifies this, vvTried
      ensures Value() == Promote(env, c, nId)
    {
      SetSlot(vvTried, s, nId);
      nTried := nTried + 1;
      mapInfo := mapInfo[nId := mapInfo[nId].(fInTried := true)];
    }

    /** Lines 256-303; nRnd is the bucket the search starts at. */
    method Good(svc: Service, nTime: int, nRnd: int)
      requires Shape() && Inv(env, Value()) && 0 < nTime && 0 <= nRnd < NEW_BUCKET_COUNT
      modifies this, vvTried, vvNew
      ensures Value() == AddrBook.Good(env, old(Value()), svc, nTime)
    {
      ghost var b := Value();
      if svc.ip !in mapAddr { return; }
      assert AddrIndexed(b, svc.ip);
      var nId := mapAddr[svc.ip];
      if mapInfo[nId].addr.svc != svc { return; }
      PutStatsKeeps(env, b, nId, MarkGood(mapInfo[nId], nTime), {});
      mapInfo := mapInfo[nId := mapInfo[nId].(nLastSuccess := nTime, nLastTry := nTime, nAttempts := 0)];
      if mapInfo[nId].fInTried { return; }
      var nUBucket := FindBucket(nId, nRnd);
      assert nUBucket != -1;   // so line 296 never bails out
      MakeTried(nId);
    }

    /** Lines 282-292: the search always ends in a bucket that holds the entry. */
    method FindBucket(nId: int, nRnd: int) returns (nUBucket: int)
      requires Shape() && Inv(env, Value()) && nId in mapInfo && !mapInfo[nId].fInTried
      requires 0 <= nRnd < NEW_BUCKET_COUNT
      ensures 0 <= nUBucket < NEW_BUCKET_COUNT
      ensures var s := PosIn(env, nKey, mapInfo[nId].addr.svc, nUBucket); vvNew[s.bucket, s.pos] == nId
    {
      ghost var b := Value();
      ghost var there := GoodFindsBucket(env, b, nId);
      ghost var at := PosIn(env, nKey, mapInfo[nId].addr.svc, there);
      assert at in b.vvNew && at == Slot(at.bucket, at.pos);
      nUBucket := -1;
      var n := 0;
      while n < NEW_BUCKET_COUNT && nUBucket == -1
        invariant 0 <= n <= NEW_BUCKET_COUNT
        invariant nUBucket == -1 ==> n <= Distance(nRnd, there)
        invariant nUBucket == -1 || (
          0 <= nUBucket < NEW_BUCKET_COUNT &&
          var s := PosIn(env, nKey, mapInfo[nId].addr.svc, nUBucket); vvNew[s.bucket, s.pos] == nId)
      {
        var nB := Around(nRnd, n);
        var s := PosIn(env, nKey, mapInfo[nId].addr.svc, nB);
        if vvNew[s.bucket, s.pos] == nId {
          nUBucket := nB;
        }
        n := n + 1;
      }
    }

    method Attempt(svc: Service, nTime: int)
      requires Inv(env, Value()) && 0 <= nTime
      modifies this
      ensures Value() == AddrBook.Attempt(old(Value()), svc, nTime)
    {
      if svc.ip !in mapAddr { return; }
      assert AddrIndexed(Value(), svc.ip);
      var nId := mapAddr[svc.ip];
      if mapInfo[nId].addr.svc != svc { return; }
      mapInfo := mapInfo[nId := mapInfo[nId].(nLastTry := nTime, nAttempts := mapInfo[nId].nAttempts + 1)];
    }

    method Connected(svc: Service, nTime: int)
      requires Inv(env, Value()) && 0 <= nTime
      modifies this
      ensures Value() == AddrBook.Connected(old(Value()), svc, nTime)
    {
      if svc.ip !in mapAddr { return; }
      assert AddrIndexed(Value(), svc.ip);
      var nId := mapAddr[svc.ip];
      if mapInfo[nId].addr.svc != svc { return; }
      if nTime - mapInfo[nId].addr.nTime > 20 * 60 {
        mapInfo := mapInfo[nId := mapInfo[nId].(addr := mapInfo[nId].addr.(nTime := nTime))];
      }
    }

    method SetLocal(svc: Service)
      requires Inv(env, Value())
      modifies this
      ensures Value() == AddrBook.SetLocal(old(Value()), svc)
    {
      if svc.ip !in mapAddr { return; }
      assert AddrIndexed(Value(), svc.ip);
      var nId := mapAddr[svc.ip];
      if mapInfo[nId].addr.svc != svc { return; }
      mapInfo := mapInfo[nId := mapInfo[nId].(fLocal := true)];
    }

    /** Lines 122-137. */
    method Create(addr: Address, source: NetAddr) returns (nId: int)
      modifies this
      ensures nId == old(nIdCount) && Value() == AddrBook.Create(old(Value()), addr, source)
    {
      nId := nIdCount;
      mapInfo := mapInfo[nId := NewInfo(addr, source).(nRandomPos := |vRandom|)];
      mapAddr := mapAddr[addr.svc.ip := nId];
      vRandom := vRandom + [nId];
      nNew, nIdCount := nNew + 1, nIdCount + 1;
      assert TableOf(vvTried) == old(TableOf(vvTried)) && TableOf(vvNew) == old(TableOf(vvNew));
    }

    /** Lines 348-359: may the entry have the slot? */
    method SlotIsFree(s: Slot, nId: int, nNow: int) returns (fInsert: bool)
      requires Shape() && Weak(env, Value(), {nId}) && nId in mapInfo
      requires 0 <= s.bucket < NEW_BUCKET_COUNT && 0 <= s.pos < BUCKET_SIZE
      ensures fInsert == MayTake(Value(), s, mapInfo[nId].nRefCount, nNow)
    {
      assert s == Slot(s.bucket, s.pos);
      var held := vvNew[s.bucket, s.pos];
      fInsert := held == -1;
      if !fInsert {
        HolderOk(env, Value(), s, nId);
        var existing := mapInfo[held];
        if IsTerrible(existing, nNow) || (existing.nRefCount > 1 && mapInfo[nId].nRefCount == 0) {
          fInsert := true;
        }
      }
    }

    /** Lines 361-363. */
    method TakeSlot(s: Slot, nId: int)
      requires Shape() && Weak(env, Value(), {nId}) && nId in mapInfo && nId != -1
      requires 0 <= s.bucket < NEW_BUCKET_COUNT && 0 <= s.pos < BUCKET_SIZE && vvNew[s.bucket, s.pos] != nId
      modifies this, vvNew
      ensures var b := old(Value());
              && (s in b.vvNew ==> b.vvNew[s] in b.mapInfo) && nId in AddrBook.ClearNew(b, s).mapInfo
              && Value() == Insert(AddrBook.ClearNew(b, s), nId, s)
    {
      ghost var b := Value();
      assert s == Slot(s.bucket, s.pos);
      if s in b.vvNew { HolderOk(env, b, s, nId); }
      ClearNewSpares(b, s, nId);
      ClearNew(s);
      EnterSlot(s, nId, mapInfo[nId].(nRefCount := mapInfo[nId].nRefCount + 1));
    }

    /** Lines 346-370. */
    method PlaceEntry(nId: int, source: NetAddr, nNow: int) returns (fInsert: bool)
      requires Shape() && Weak(env, Value(), {nId}) && nId in mapInfo && !mapInfo[nId].fInTried
      modifies this, vvNew
      ensures (Value(), fInsert) == Place(env, old(Value()), nId, source, nNow)
    {
      ghost var b := Value();
      assert IdIndexed(b, nId);
      var s := NewSlotOf(mapInfo[nId], source);
      assert s == Slot(s.bucket, s.pos);
      if vvNew[s.bucket, s.pos] == nId {
        return false;
      }
      fInsert := SlotIsFree(s, nId, nNow);
      if fInsert {
        TakeSlot(s, nId);
      } else if mapInfo[nId].nRefCount == 0 {
        Delete(nId);
      }
    }

    /** Lines 314-340 and what follows for a known address. */
    method AddKnown(addr: Address, source: NetAddr, nTimePenalty: int, nNow: int, rnd: nat) returns (ret: bool)
      requires Shape() && Inv(env, Value()) && addr.svc.ip in mapAddr
      requires env.valid(addr.svc.ip) && env.publicRange(addr.svc.ip)
      modifies this, vvNew
      ensures (Value(), ret) ==
              AddrBook.Add(env, old(Value()), addr, source, nTimePenalty, nNow, Luck(old(Value()), addr.svc.ip, rnd))
    {
      ghost var b := Value();
      var nId := mapAddr[addr.svc.ip];
      AddKnownIs(env, b, addr, source, nTimePenalty, nNow, Luck(b, addr.svc.ip, rnd));
      var info := Refresh(mapInfo[nId], addr, nTimePenalty, nNow);
      mapInfo := mapInfo[nId := info];
      var more := MayGetMore(info, addr, rnd);
      if !more { return false; }
      ret := PlaceEntry(nId, source, nNow);
    }

    /** Lines 305-371; rnd is the random number behind RandomInt. */
    method Add(addr: Address, source: NetAddr, nTimePenalty: int, nNow: int, rnd: nat) returns (ret: bool)
      requires Shape() && Inv(env, Value())
      modifies this, vvNew
      ensures (Value(), ret) ==
              AddrBook.Add(env, old(Value()), addr, source, nTimePenalty, nNow, Luck(old(Value()), addr.svc.ip, rnd))
      ensures Inv(env, Value())
    {
      ghost var b := Value();
      AddKeeps(env, b, addr, source, nTimePenalty, nNow, Luck(b, addr.svc.ip, rnd));
      if !(env.valid(addr.svc.ip) && env.publicRange(addr.svc.ip)) { return false; }
      if addr.svc.ip in mapAddr {
        ret := AddKnown(addr, source, nTimePenalty, nNow, rnd);
      } else {
        var addr' := FreshInfo(addr, nTimePenalty);
        CreateKeeps(env, b, addr', source);
        var nId := Create(addr', source);
        ret := PlaceEntry(nId, source, nNow);
      }
    }

    /** GetAddr_'s shuffle (lines 573-577): it keeps the invariant and the entries. */
    method Shuffle(rnd: nat -> nat)
      requires Inv(env, Value())
      modifies this
      ensures Inv(env, Value()) && SameButPos(mapInfo, old(mapInfo)) && |vRandom| == old(|vRandom|)
    {
      ghost var b := Value();
      var size := |vRandom|;
      for n := 0 to size
        invariant Inv(env, Value()) && SameButPos(mapInfo, b.mapInfo) && |vRandom| == size
      {
        var nRndPos := rnd(n) % (size - n) + n;
        SwapOnly(env, Value(), n, nRndPos, b);
        SwapRandom(n, nRndPos);
      }
    }

    /** GetAddr_ (lines 560-614): addresses of entries worth passing on, each once, within the cap; all of
        them if the cap, and where it is asked for the per-network quota, allows. */
    method GetAddr(wantsAddrV2: bool, nNow: int, rnd: nat -> nat) returns (vAddr: seq<Address>)
      requires Inv(env, Value())
      modifies this
      ensures Inv(env, Value()) && SameButPos(mapInfo, old(mapInfo))
      ensures |vAddr| <= Cap(|vRandom|)
      ensures forall a <- vAddr :: PassedOn(Value(), a, nNow)
      ensures forall j, k :: 0 <= j < k < |vAddr| ==> vAddr[j].svc.ip != vAddr[k].svc.ip
      ensures |vAddr| < Cap(|vRandom|) ==>
                forall id <- mapInfo :: Served(mapInfo[id], vAddr, wantsAddrV2, Cap(|vRandom|), nNow)
      ensures wantsAddrV2 ==> forall net: Network :: OnNetwork(vAddr, net) <= Cap(|vRandom|) / 5 + 1
    {
      Shuffle(rnd);
      ghost var b := Value();
      forall i | 0 <= i < |vRandom| ensures vRandom[i] in mapInfo { assert PosIndexed(b, i); }
      ghost var picks;
      vAddr, picks := Gather(mapInfo, vRandom, Cap(|vRandom|), wantsAddrV2, nNow);
      forall a | a in vAddr ensures PassedOn(b, a, nNow) {
        var k :| 0 <= k < |vAddr| && vAddr[k] == a;
        assert IdIndexed(b, vRandom[picks[k]]);
      }
      forall j, k | 0 <= j < k < |vAddr| ensures vAddr[j].svc.ip != vAddr[k].svc.ip {
        assert PosIndexed(b, picks[j]) && PosIndexed(b, picks[k]);
        assert IdIndexed(b, vRandom[picks[j]]) && IdIndexed(b, vRandom[picks[k]]);
      }
      if |vAddr| < Cap(|vRandom|) {
        forall id | id in mapInfo ensures Served(mapInfo[id], vAddr, wantsAddrV2, Cap(|vRandom|), nNow) {
          assert IdIndexed(b, id);
        }
      }
    }

    // ----- Unserialize (src/addrman.h)

    /** Lines 495-502. */
    method ReadNew(xs: seq<Entry>, ghost c: Book)
      requires Shape() && vRandom == [] && Value() == c.(nNew := |xs|) && c.nNew == 0 && c.nIdCount == 0
      modifies this
      ensures Value() == LoadNews(c, xs)
    {
      for n := 0 to |xs|
        invariant Value() == LoadNews(c, xs[..n]).(nNew := |xs|)
        invariant |vRandom| == nIdCount == n && LoadNews(c, xs[..n]).nNew == n
      {
        assert xs[..n + 1][..n] == xs[..n];
        AppendEntry(InfoOf(xs[n]).(nRandomPos := |vRandom|));   // line 502's nIdCount, kept up along the way
      }
      assert xs[..|xs|] == xs;
    }

    /** Lines 512-516 and 518. */
    method AppendEntry(info: Info)
      modifies this
      ensures var b := old(Value());
              Value() == b.(mapInfo := b.mapInfo[b.nIdCount := info], mapAddr := b.mapAddr[info.Ip() := b.nIdCount],
                            vRandom := b.vRandom + [b.nIdCount], nIdCount := b.nIdCount + 1)
    {
      vRandom := vRandom + [nIdCount];
      mapInfo := mapInfo[nIdCount := info];
      mapAddr := mapAddr[info.Ip() := nIdCount];
      nIdCount := nIdCount + 1;
    }

    /** One round of lines 506-522. */
    method ReadOneTried(x: Entry) returns (lost: bool)
      requires Shape() && 0 <= nIdCount
      modifies this, vvTried
      ensures Value() == LoadTried(env, old(Value()), x).(nTried := old(nTried)) && 0 <= nIdCount
      ensures LoadTried(env, old(Value()), x).nTried == old(nTried) + if lost then 0 else 1
    {
      var info := InfoOf(x);
      var s := TriedSlotOf(info);
      assert s == Slot(s.bucket, s.pos);
      lost := !env.valid(info.Ip()) || vvTried[s.bucket, s.pos] != -1;
      if !lost {
        SetSlot(vvTried, s, nIdCount);
        AppendEntry(info.(nRandomPos := |vRandom|, fInTried := true));
      }
    }

    /** Lines 505-523. */
    method ReadTried(xs: seq<Entry>, ghost c: Book)
      requires Shape() && Value() == c.(nTried := |xs|) && c.nTried == 0 && 0 <= nIdCount
      modifies this, vvTried
      ensures Value() == LoadTrieds(env, c, xs)
    {
      var nLost := 0;
      for n := 0 to |xs|
        invariant 0 <= nIdCount && nTried == |xs|
        invariant Value() == LoadTrieds(env, c, xs[..n]).(nTried := |xs|)
        invariant LoadTrieds(env, c, xs[..n]).nTried == n - nLost
      {
        assert xs[..n + 1][..n] == xs[..n];
        LoadTriedFrame(env, LoadTrieds(env, c, xs[..n]), xs[n], |xs|);
        var lost := ReadOneTried(xs[n]);
        if lost { nLost := nLost + 1; }
      }
      assert xs[..|xs|] == xs;
      nTried := nTried - nLost;
    }

    /** Lines 577-590: the slot a reference leads to, if there is one to be had. */
    method SlotForRef(r: Ref, restore: bool) returns (ok: bool, s: Slot)
      requires Shape() && r.index in mapInfo && (restore ==> 0 <= r.bucket < NEW_BUCKET_COUNT)
      ensures LoadRef(env, Value(), r, restore) == if ok then Insert(Value(), r.index, s) else Value()
      ensures ok ==> 0 <= s.bucket < NEW_BUCKET_COUNT && 0 <= s.pos < BUCKET_SIZE
    {
      var info := mapInfo[r.index];
      s := PosIn(env, nKey, info.addr.svc, r.bucket);
      if !env.valid(info.Ip()) || info.nRefCount >= NEW_BUCKETS_PER_ADDRESS { return false, s; }
      assert s == Slot(s.bucket, s.pos);
      if restore && vvNew[s.bucket, s.pos] == -1 { return true, s; }
      s := NewSlotOf(info, info.source);
      assert s == Slot(s.bucket, s.pos);
      ok := vvNew[s.bucket, s.pos] == -1;
    }

    /** One round of lines 560-593. */
    method ReadRef(r: Ref, restore: bool)
      requires Shape() && r.index in mapInfo && r.index != -1 && (restore ==> 0 <= r.bucket < NEW_BUCKET_COUNT)
      modifies this, vvNew
      ensures Value() == LoadRef(env, old(Value()), r, restore)
    {
      var ok, s := SlotForRef(r, restore);
      if ok {
        EnterSlot(s, r.index, mapInfo[r.index].(nRefCount := mapInfo[r.index].nRefCount + 1));
      }
    }

    /** Lines 560-593. */
    method ReadRefs(rs: seq<Ref>, restore: bool, ghost nNew': nat)
      requires Shape() && RefsLoaded(env, Value(), Value(), nNew')
      requires forall i :: 0 <= i < nNew' ==> i in mapInfo
      requires forall r <- rs :: 0 <= r.index < nNew' && (restore ==> 0 <= r.bucket < NEW_BUCKET_COUNT)
      modifies this, vvNew
      ensures Value() == LoadRefs(env, old(Value()), rs, restore)
    {
      ghost var d := Value();
      for n := 0 to |rs|
        invariant Value() == LoadRefs(env, d, rs[..n], restore)
      {
        assert rs[..n + 1][..n] == rs[..n];
        LoadRefsOk(env, d, nNew', rs[..n], restore);
        assert rs[n] in rs;
        ReadRef(rs[n], restore);
      }
      assert rs[..|rs|] == rs;
    }

    /** Lines 597-605. */
    method PruneNew()
      requires Placed(Value())
      modifies this
      ensures Value() == Prune(old(Value()), Counting(old(nIdCount)))
    {
      ghost var b := Value();
      var count := nIdCount;
      for id := 0 to count
        invariant Placed(Value()) && Value() == Prune(b, Counting(id))
      {
        assert Counting(id + 1)[..id] == Counting(id);
        PruneOne(id);
      }
    }

    /** Lines 599-604. */
    method PruneOne(id: int)
      requires Placed(Value())
      modifies this
      ensures Placed(Value()) && Value() == if Dangling(old(Value()), id) then AddrBook.Delete(old(Value()), id) else old(Value())
    {
      if id in mapInfo && !mapInfo[id].fInTried && mapInfo[id].nRefCount == 0 {
        DeletePlaced(Value(), id);
        Delete(id);
      }
    }

    /** Lines 403-412: number the new entries and write them; the source asserts that nNew is not exceeded. */
    method WriteNew(ghost hash: seq<bool> -> nat) returns (mapUnkIds: map<int, int>, entries: seq<Entry>)
      requires Shape() && Inv(env, Value())
      ensures forall id <- mapInfo :: id in mapUnkIds && mapUnkIds[id] == Rank(Value(), id)
      ensures entries == Save(hash, Value()).newEntries
    {
      ghost var b := Value();
      ghost var p := IsNew(b);
      mapUnkIds, entries := map[], [];
      var nIds := 0;
      SavedCounts(env, hash, b);
      forall id | id in mapInfo ensures 0 <= id < nIdCount { assert IdIndexed(b, id); }
      for id := 0 to nIdCount
        invariant nIds == |entries| == |Picked(id, p)|
        invariant forall i <- mapInfo :: i < id ==> i in mapUnkIds && mapUnkIds[i] == Rank(b, i)
        invariant forall k :: 0 <= k < |entries| ==> Picked(id, p)[k] in mapInfo && entries[k] == EntryOf(mapInfo[Picked(id, p)[k]])
      {
        if id in mapInfo {
          mapUnkIds := mapUnkIds[id := nIds];
          if mapInfo[id].nRefCount != 0 {
            PickedGrows(id + 1, nIdCount, p);
            assert nIds != nNew;
            entries := entries + [EntryOf(mapInfo[id])];
            nIds := nIds + 1;
          }
        }
      }
    }

    /** Lines 413-421. */
    method WriteTried(ghost hash: seq<bool> -> nat) returns (entries: seq<Entry>)
      requires Shape() && Inv(env, Value())
      ensures entries == Save(hash, Value()).triedEntries
    {
      ghost var b := Value();
      ghost var p := IsTried(b);
      entries := [];
      var nIds := 0;
      SavedCounts(env, hash, b);
      for id := 0 to nIdCount
        invariant nIds == |entries| == |Picked(id, p)|
        invariant forall k :: 0 <= k < |entries| ==> Picked(id, p)[k] in mapInfo && entries[k] == EntryOf(mapInfo[Picked(id, p)[k]])
      {
        if id in mapInfo && mapInfo[id].fInTried {
          PickedGrows(id + 1, nIdCount, p);
          assert nIds != nTried;
          entries := entries + [EntryOf(mapInfo[id])];
          nIds := nIds + 1;
        }
      }
    }

    /** The numbering covers every entry that a slot of the new table refers to. */
    ghost predicate Numbered(b: Book, mapUnkIds: map<int, int>) {
      forall s <- b.vvNew :: b.vvNew[s] in mapUnkIds && mapUnkIds[b.vvNew[s]] == Rank(b, b.vvNew[s])
    }

    /** Lines 429-434. */
    method WriteBucket(bucket: int, size: nat, mapUnkIds: map<int, int>, ghost b: Book) returns (indices: seq<int>)
      requires Shape() && Value() == b && Numbered(b, mapUnkIds)
      requires 0 <= bucket < NEW_BUCKET_COUNT && size <= BUCKET_SIZE
      ensures forall s <- BucketSlots(b, bucket, size) :: s in b.vvNew
      ensures indices == SavedIndices(b, BucketSlots(b, bucket, size))
    {
      BucketSlotsAre(b, bucket, size);
      indices := [];
      for i := 0 to size
        invariant AreIndices(b, BucketSlots(b, bucket, i), indices)
      {
        if vvNew[bucket, i] != -1 {
          assert Slot(bucket, i) in b.vvNew;
          IndexMore(b, BucketSlots(b, bucket, i), indices, Slot(bucket, i));
          indices := indices + [mapUnkIds[vvNew[bucket, i]]];
        }
      }
    }

    /** Lines 382-446. */
    method Serialize(hash: seq<bool> -> nat) returns (d: Disk)
      requires Shape() && Inv(env, Value())
      ensures d == Save(hash, Value())
    {
      var mapUnkIds, news := WriteNew(hash);
      var trieds := WriteTried(hash);
      ghost var b := Value();
      assert Numbered(b, mapUnkIds) by {
        forall s | s in b.vvNew ensures b.vvNew[s] in b.mapInfo { assert NewSlotOk(env, b, s); }
      }
      var buckets: seq<seq<int>> := [];
      for bucket := 0 to NEW_BUCKET_COUNT
        invariant buckets == SavedBuckets(b, bucket)
      {
        var indices := WriteBucket(bucket, BUCKET_SIZE, mapUnkIds, b);
        buckets := buckets + [indices];
      }
      d := Disk(FILE_FORMAT, INCOMPATIBILITY_BASE + FILE_FORMAT, nKey, news, trieds, buckets,
                if |m_asmap| != 0 then hash(m_asmap) else 0);
    }

    /** Lines 448-611: reject what cannot be read, otherwise load it, whatever it holds; LoadExact tells which
        streams leave a consistent manager. */
    method Unserialize(hash: seq<bool> -> nat, d: Disk) returns (ok: bool)
      requires Shape() && Value() == Clear(Value(), nKey)
      modifies this, vvTried, vvNew
      ensures ok <==> Accepted(d)
      ensures ok ==> Value() == Load(env, hash, old(Value()), d)
      ensures !ok ==> Value() == HeaderOnly(old(Value()), d)
    {
      ghost var b := Value();
      ok := ReadHeader(d);
      if ok {
        ReadBody(hash, b, d);
      }
    }

    /** Lines 462-492: the format and the counts are checked before anything is read into the tables. */
    method ReadHeader(d: Disk) returns (ok: bool)
      requires Shape()
      modifies this
      ensures ok <==> Accepted(d)
      ensures ok ==> Value() == old(Value()).(nKey := d.nKey, nNew := |d.newEntries|, nTried := |d.triedEntries|)
      ensures !ok ==> Value() == HeaderOnly(old(Value()), d)
    {
      if (d.compat - INCOMPATIBILITY_BASE) % 256 > FILE_FORMAT { return false; }
      nKey := d.nKey;
      nNew := |d.newEntries|;
      nTried := |d.triedEntries|;
      ok := nNew <= NEW_BUCKET_COUNT * BUCKET_SIZE && nTried <= TRIED_BUCKET_COUNT * BUCKET_SIZE;
    }

    /** Lines 494-605. */
    method ReadBody(hash: seq<bool> -> nat, ghost b: Book, d: Disk)
      requires Shape() && b == Clear(b, b.nKey)
      requires Value() == b.(nKey := d.nKey, nNew := |d.newEntries|, nTried := |d.triedEntries|)
      modifies this, vvTried, vvNew
      ensures Value() == Load(env, hash, b, d)
    {
      var restore := Restores(hash, m_asmap, d);
      ReadEntries(b, d);
      EntriesReady(env, b, d);
      FilledOk(env, hash, b, d);
      AllRefsInRange(d.buckets, |d.newEntries|);
      var refs := CollectRefs(d.buckets, |d.newEntries|);
      ReadRefs(refs, restore, |d.newEntries|);
      PruneNew();
    }

    /** Lines 494-523. */
    method ReadEntries(ghost b: Book, d: Disk)
      requires Shape() && b == Clear(b, b.nKey)
      requires Value() == b.(nKey := d.nKey, nNew := |d.newEntries|, nTried := |d.triedEntries|)
      modifies this, vvTried
      ensures Value() == Entries(env, b, d)
    {
      ghost var c := Clear(b, d.nKey);
      LoadNewsFrame(c, d.newEntries, |d.triedEntries|);
      ReadNew(d.newEntries, c.(nTried := |d.triedEntries|));
      ReadTried(d.triedEntries, LoadNews(c, d.newEntries));
    }
  }

  /** What a refused stream leaves behind: the counts are stored before they are held against the limits. */
  function HeaderOnly(b: Book, d: Disk): Book {
    if (d.compat - INCOMPATIBILITY_BASE) % 256 > FILE_FORMAT then b
    else b.(nKey := d.nKey, nNew := |d.newEntries|, nTried := |d.triedEntries|)
  }

  /** Main result on the objects: what one manager saves, a cleared one with the same AS map loads. */
  method SaveAndLoad(from: CAddrMan, to: CAddrMan, hash: seq<bool> -> nat) returns (ok: bool)
    requires from.Shape() && Inv(from.env, from.Value())
    requires to.Shape() && to.Value() == Clear(to.Value(), to.nKey) && to.env == from.env && to.m_asmap == from.m_asmap
    modifies to, to.vvTried, to.vvNew
    ensures ok && Inv(to.env, to.Value()) && to.nKey == old(from.nKey)
    ensures Contents(to.Value()) == old(Contents(from.Value()))
  {
    ghost var b, c := from.Value(), to.Value();
    var d := from.Serialize(hash);
    LoadInvertsSave(from.env, hash, b, c);
    ok := to.Unserialize(hash, d);
  }

  method EmptyTable(t: array2<int>)
    modifies t
    ensures TableOf(t) == map[]
  {
    for b := 0 to t.Length0
      invariant forall i, j :: 0 <= i < b && 0 <= j < t.Length1 ==> t[i, j] == -1
    {
      for k := 0 to t.Length1
        invariant forall i, j :: 0 <= i < b && 0 <= j < t.Length1 ==> t[i, j] == -1
        invariant forall j :: 0 <= j < k ==> t[b, j] == -1
      {
        t[b, k] := -1;
      }
    }
    assert forall s: Slot :: s in TableOf(t) ==> s == Slot(s.bucket, s.pos);
  }

  /** Where an entry sits in a new bucket. */
  function PosIn(env: Env, nKey: nat, svc: Service, bucket: int): Slot {
    Slot(bucket, env.posHash(nKey, true, bucket, svc) % BUCKET_SIZE)
  }

  /** How far round the ring bucket b lies after start. */
  function Distance(start: int, b: int): int {
    if b >= start then b - start else b - start + NEW_BUCKET_COUNT
  }

  function Around(start: int, n: int): (b: int)
    requires 0 <= start < NEW_BUCKET_COUNT && 0 <= n < NEW_BUCKET_COUNT
    ensures 0 <= b < NEW_BUCKET_COUNT && Distance(start, b) == n
    ensures forall x :: 0 <= x < NEW_BUCKET_COUNT && Distance(start, x) == n ==> x == b
  {
    (start + n) % NEW_BUCKET_COUNT
  }

  /** The slots sit where the entry belongs, none of them less than n buckets round. */
  ghost predicate InRing(env: Env, nKey: nat, svc: Service, kept: set<Slot>, start: int, n: int) {
    forall s <- kept ::
      s == PosIn(env, nKey, svc, s.bucket) && 0 <= s.bucket < NEW_BUCKET_COUNT && n <= Distance(start, s.bucket)
  }

  lemma OneOn(env: Env, nKey: nat, svc: Service, kept: set<Slot>, start: int, n: int)
    requires 0 <= start < NEW_BUCKET_COUNT && 0 <= n < NEW_BUCKET_COUNT
    requires InRing(env, nKey, svc, kept, start, n)
    requires PosIn(env, nKey, svc, Around(start, n)) !in kept
    ensures InRing(env, nKey, svc, kept, start, n + 1)
  {
    var b := Around(start, n);
    forall s | s in kept ensures n + 1 <= Distance(start, s.bucket) {
      assert Distance(start, s.bucket) == n ==> s.bucket == b;
    }
  }

  lemma DropOne(m: map<Slot, int>, all: set<Slot>, kept: set<Slot>, s: Slot)
    requires kept <= all && s in kept
    ensures (m - (all - kept)) - {s} == m - (all - (kept - {s}))
    ensures |kept - {s}| == |kept| - 1
  {
    CardinalityAdd(kept - {s}, kept, s);
    assert all - (kept - {s}) == all - kept + {s};
  }

  /** Lines 212-215. */
  method ClearIfHeld(t: array2<int>, s: Slot, nId: int, count: int, ghost m: map<Slot, int>, ghost kept: set<Slot>)
    returns (nRefCount: int, ghost kept': set<Slot>)
    requires 0 <= s.bucket < t.Length0 && 0 <= s.pos < t.Length1 && nId != -1
    requires kept <= SlotsOf(m, nId) && TableOf(t) == m - (SlotsOf(m, nId) - kept) && count == |kept|
    modifies t
    ensures kept' == kept - {s} && nRefCount == |kept'|
    ensures TableOf(t) == m - (SlotsOf(m, nId) - kept')
  {
    nRefCount, kept' := count, kept;
    assert s == Slot(s.bucket, s.pos);
    if t[s.bucket, s.pos] == nId {
      SetSlot(t, s, -1);
      DropOne(m, SlotsOf(m, nId), kept, s);
      kept' := kept - {s};
      nRefCount := nRefCount - 1;
    } else {
      assert s !in kept by { assert s in kept ==> s in TableOf(t); }
      assert kept - {s} == kept;
    }
  }

  /** The loop of lines 209-217, started at the entry's own bucket: it clears every slot of the entry and
      counts the references down to zero, whether it ends by break or by coming full circle. */
  method RemoveAround(t: array2<int>, env: Env, nKey: nat, svc: Service, startBucket: int, nId: int, count: int)
    returns (nRefCount: int)
    requires t.Length0 == NEW_BUCKET_COUNT && t.Length1 == BUCKET_SIZE
    requires 0 <= startBucket < NEW_BUCKET_COUNT && nId != -1
    requires forall s <- SlotsOf(TableOf(t), nId) :: s == PosIn(env, nKey, svc, s.bucket)
    requires count == |SlotsOf(TableOf(t), nId)|
    modifies t
    ensures TableOf(t) == old(TableOf(t)) - SlotsOf(old(TableOf(t)), nId) && nRefCount == 0
  {
    ghost var m := TableOf(t);
    ghost var all := SlotsOf(m, nId);
    ghost var kept := all;
    nRefCount := count;
    assert m - (all - kept) == m;
    var n, done := 0, false;
    while n < NEW_BUCKET_COUNT && !done
      invariant 0 <= n <= NEW_BUCKET_COUNT
      invariant Clearing(t, m, nId, kept) && nRefCount == |kept| && (done ==> kept == {})
      invariant InRing(env, nKey, svc, kept, startBucket, n)
    {
      nRefCount, kept := RingTurn(t, env, nKey, svc, startBucket, n, nId, nRefCount, m, kept);
      done := nRefCount == 0;
      n := n + 1;
    }
    RingDone(env, nKey, svc, kept, startBucket, n, done);
    assert all - kept == all;
  }

  /** The table with only the slots `kept` of the entry left. */
  ghost predicate Clearing(t: array2<int>, m: map<Slot, int>, nId: int, kept: set<Slot>)
    reads t
  {
    kept <= SlotsOf(m, nId) && TableOf(t) == m - (SlotsOf(m, nId) - kept)
  }

  lemma RingDone(env: Env, nKey: nat, svc: Service, kept: set<Slot>, start: int, n: int, done: bool)
    requires InRing(env, nKey, svc, kept, start, n) && 0 <= start < NEW_BUCKET_COUNT
    requires if done then kept == {} else n >= NEW_BUCKET_COUNT
    ensures kept == {}
  {
    forall s | s in kept ensures false {
    }
  }

  /** One bucket further round the ring. */
  method RingTurn(t: array2<int>, env: Env, nKey: nat, svc: Service, startBucket: int, n: int, nId: int, count: int,
                  ghost m: map<Slot, int>, ghost kept: set<Slot>)
    returns (nRefCount: int, ghost kept': set<Slot>)
    requires t.Length0 == NEW_BUCKET_COUNT && t.Length1 == BUCKET_SIZE && nId != -1
    requires 0 <= startBucket < NEW_BUCKET_COUNT && 0 <= n < NEW_BUCKET_COUNT
    requires Clearing(t, m, nId, kept) && count == |kept| && InRing(env, nKey, svc, kept, startBucket, n)
    modifies t
    ensures Clearing(t, m, nId, kept') && nRefCount == |kept'| && InRing(env, nKey, svc, kept', startBucket, n + 1)
  {
    var s := PosIn(env, nKey, svc, Around(startBucket, n));
    nRefCount, kept' := ClearIfHeld(t, s, nId, count, m, kept);
    OneOn(env, nKey, svc, kept', startBucket, n);
  }

  function TwoTo(n: int): (r: int)
    ensures r >= 1 && (r > 1 <==> n > 0)
  {
    if n <= 0 then 1 else 2 * TwoTo(n - 1)
  }

  /** Whether the known entry's draw comes out zero: RandomInt(2^nRefCount). */
  ghost predicate Luck(b: Book, ip: NetAddr, rnd: nat) {
    ip in b.mapAddr && b.mapAddr[ip] in b.mapInfo && rnd % TwoTo(b.mapInfo[b.mapAddr[ip]].nRefCount) == 0
  }

  /** Lines 324-340. */
  method MayGetMore(info: Info, addr: Address, rnd: nat) returns (more: bool)
    ensures 0 <= info.nRefCount ==> more == WantsMore(info, addr, rnd % TwoTo(info.nRefCount) == 0)
  {
    if addr.nTime == 0 || (info.addr.nTime != 0 && addr.nTime <= info.addr.nTime) { return false; }
    if info.fInTried { return false; }
    if info.nRefCount == NEW_BUCKETS_PER_ADDRESS { return false; }
    var nFactor := Doublings(info.nRefCount);
    if nFactor > 1 && rnd % nFactor != 0 { return false; }
    more := true;
  }

  /** Lines 336-338. */
  method Doublings(n: int) returns (nFactor: int)
    ensures nFactor == TwoTo(n)
  {
    nFactor := 1;
    var i := 0;
    while i < n
      invariant 0 <= i && (i > 0 ==> i <= n) && nFactor == TwoTo(i)
    {
      nFactor := nFactor * 2;
      i := i + 1;
    }
  }

  /** Lines 562-564: 23 of a hundred, and no more than 2500. */
  function Cap(size: nat): (n: nat)
    ensures n <= 2500 && 100 * n <= 23 * size && (n < 2500 ==> 23 * size < 100 * (n + 1))
  {
    var nNodes := 23 * size / 100;
    if nNodes > 2500 then 2500 else nNodes
  }

  /** The address of a known entry that is not terrible. */
  ghost predicate PassedOn(b: Book, a: Address, nNow: int) {
    && a.svc.ip in b.mapAddr && b.mapAddr[a.svc.ip] in b.mapInfo
    && b.mapInfo[b.mapAddr[a.svc.ip]].addr == a && !IsTerrible(b.mapInfo[b.mapAddr[a.svc.ip]], nNow)
  }

  function OnNetwork(vAddr: seq<Address>, net: Network): nat {
    if vAddr == [] then 0
    else OnNetwork(vAddr[..|vAddr| - 1], net) + if vAddr[|vAddr| - 1].svc.ip.network == net then 1 else 0
  }

  /** Lines 579-613. */
  method Gather(mapInfo: map<int, Info>, vRandom: seq<int>, nNodes: nat, wantsAddrV2: bool, nNow: int)
    returns (vAddr: seq<Address>, ghost picks: seq<int>)
    requires forall i :: 0 <= i < |vRandom| ==> vRandom[i] in mapInfo
    ensures |vAddr| == |picks| <= nNodes
    ensures forall k :: 0 <= k < |picks| ==>
              && 0 <= picks[k] < |vRandom| && vAddr[k] == mapInfo[vRandom[picks[k]]].addr
              && !IsTerrible(mapInfo[vRandom[picks[k]]], nNow)
    ensures forall j, k :: 0 <= j < k < |picks| ==> picks[j] < picks[k]
    ensures wantsAddrV2 ==> forall net: Network :: OnNetwork(vAddr, net) <= nNodes / 5 + 1
    ensures |vAddr| < nNodes ==> forall i :: 0 <= i < |vRandom| ==> Served(mapInfo[vRandom[i]], vAddr, wantsAddrV2, nNodes, nNow)
  {
    vAddr, picks := [], [];
    var quota := nNodes / 5;
    var tally := Tally(0, 0, 0, 0, 0);
    var n := 0;
    while n < |vRandom| && |vAddr| < nNodes
      invariant 0 <= n <= |vRandom| && |vAddr| == |picks| <= nNodes
      invariant forall k :: 0 <= k < |picks| ==>
                  && 0 <= picks[k] < n && vAddr[k] == mapInfo[vRandom[picks[k]]].addr
                  && !IsTerrible(mapInfo[vRandom[picks[k]]], nNow)
      invariant forall j, k :: 0 <= j < k < |picks| ==> picks[j] < picks[k]
      invariant wantsAddrV2 ==> forall net: Network :: OnNetwork(vAddr, net) == tally.Of(net) <= quota + 1
      invariant forall i :: 0 <= i < n ==> Served(mapInfo[vRandom[i]], vAddr, wantsAddrV2, nNodes, nNow)
    {
      var info := mapInfo[vRandom[n]];
      var net := info.Ip().network;
      if !IsTerrible(info, nNow) && (!wantsAddrV2 || (net != Internal && tally.Of(net) <= quota)) {
        Tallied(vAddr, info.addr, tally, quota);
        StillServed(mapInfo, vRandom, n, vAddr, info.addr, wantsAddrV2, nNodes, nNow);
        vAddr, picks := vAddr + [info.addr], picks + [n];
        tally := tally.Inc(net);
      }
      n := n + 1;
    }
  }

  /** The entry is handed out or terrible, or where networks are held to a quota it is internal, or its network has had
      a fifth and one. */
  predicate Served(info: Info, vAddr: seq<Address>, wantsAddrV2: bool, nNodes: nat, nNow: int) {
    || IsTerrible(info, nNow) || info.addr in vAddr
    || (wantsAddrV2 && (info.Ip().network == Internal || OnNetwork(vAddr, info.Ip().network) >= nNodes / 5 + 1))
  }

  lemma StillServed(mapInfo: map<int, Info>, ids: seq<int>, n: nat, vAddr: seq<Address>, a: Address,
                    wantsAddrV2: bool, nNodes: nat, nNow: int)
    requires n <= |ids| && forall i :: 0 <= i < n ==> ids[i] in mapInfo && Served(mapInfo[ids[i]], vAddr, wantsAddrV2, nNodes, nNow)
    ensures forall i :: 0 <= i < n ==> Served(mapInfo[ids[i]], vAddr + [a], wantsAddrV2, nNodes, nNow)
  {
    assert (vAddr + [a])[..|vAddr|] == vAddr;
  }

  lemma Tallied(vAddr: seq<Address>, a: Address, tally: Tally, quota: int)
    ensures var net' := a.svc.ip.network;
            (forall net: Network :: OnNetwork(vAddr, net) == tally.Of(net) <= quota + 1)
            && net' != Internal && tally.Of(net') <= quota
            ==> forall net: Network :: OnNetwork(vAddr + [a], net) == tally.Inc(net').Of(net) <= quota + 1
  {
    assert (vAddr + [a])[..|vAddr|] == vAddr;
  }

  /** The counters ipv4Nodes and so on. */
  datatype Tally = Tally(ipv4: int, ipv6: int, tor: int, i2p: int, cjdns: int) {
    function Of(net: Network): int {
      match net
      case IPv4 => ipv4
      case IPv6 => ipv6
      case Onion => tor
      case I2P => i2p
      case Cjdns => cjdns
      case Internal => 0
    }

    function Inc(net: Network): (r: Tally)
      ensures forall m :: r.Of(m) == Of(m) + if m == net && net != Internal then 1 else 0
    {
      match net
      case IPv4 => this.(ipv4 := ipv4 + 1)
      case IPv6 => this.(ipv6 := ipv6 + 1)
      case Onion => this.(tor := tor + 1)
      case I2P => this.(i2p := i2p + 1)
      case Cjdns => this.(cjdns := cjdns + 1)
      case Internal => this
    }
  }

  /** Lines 528-540. */
  method CollectRefs(buckets: seq<seq<int>>, nNew: int) returns (refs: seq<Ref>)
    ensures refs == AllRefs(buckets, nNew)
  {
    refs := [];
    for b := 0 to |buckets|
      invariant refs == AllRefs(buckets[..b], nNew)
    {
      ghost var before := refs;
      for n := 0 to |buckets[b]|
        invariant refs == before + BucketRefs(b, buckets[b][..n], nNew)
      {
        assert buckets[b][..n + 1][..n] == buckets[b][..n];
        if 0 <= buckets[b][n] < nNew {
          refs := refs + [Ref(b, buckets[b][n])];
        }
      }
      assert buckets[b][..|buckets[b]|] == buckets[b];
      assert buckets[..b + 1][..b] == buckets[..b];
    }
    assert buckets[..|buckets|] == buckets;
  }
}
