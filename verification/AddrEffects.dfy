/** What Add_, Good_, Attempt_, Connected_ and SetLocal_ of src/addrman.cpp do to a manager, field by field. */
module AddrEffects {
  import opened AddrBook

  /** Lines 54-75: terrible is an entry that is neither ours nor just tried, and comes from the future, is too old, has
      never answered three attempts, or has failed ten times without a success in a week. */
  lemma TerribleExact(info: Info, nNow: int)
    ensures IsTerrible(info, nNow) <==>
            && !info.fLocal && (info.nLastTry == 0 || info.nLastTry < nNow - 60)
            && (|| info.addr.nTime > nNow + 600
                || info.addr.nTime == 0 || info.addr.nTime < nNow - 2592000
                || (info.nLastSuccess == 0 && info.nAttempts >= 3)
                || (info.nLastSuccess < nNow - 604800 && info.nAttempts >= 10))
  {
  }

  /** The new-table slot of a service advertised by a source. */
  function SlotFor(e: Env, b: Book, svc: Service, source: NetAddr): Slot {
    var bucket := e.newHash(b.nKey, b.asmap, svc.ip, source) % 1024;
    Slot(bucket, e.posHash(b.nKey, true, bucket, svc) % 64)
  }

  /** The tried-table slot of a service. */
  function TriedSlotFor(e: Env, b: Book, svc: Service): Slot {
    var bucket := e.triedHash(b.nKey, b.asmap, svc) % 256;
    Slot(bucket, e.posHash(b.nKey, false, bucket, svc) % 64)
  }

  /** Slot s is taken from its holder by id: the holder has one reference less, and is gone if that was the last. */
  ghost predicate Taken(b: Book, c: Book, s: Slot, id: int) {
    && c.vvNew == b.vvNew[s := id]
    && forall i :: i != id ==>
         if s in b.vvNew && b.vvNew[s] == i && i in b.mapInfo then
           if b.mapInfo[i].nRefCount == 1 then i !in c.mapInfo
           else i in c.mapInfo && SameBut(c.mapInfo[i], b.mapInfo[i].(nRefCount := b.mapInfo[i].nRefCount - 1))
         else
           (i in c.mapInfo <==> i in b.mapInfo) && (i in b.mapInfo ==> SameBut(c.mapInfo[i], b.mapInfo[i]))
  }

  /** The same entry, but for its place in vRandom. */
  predicate SameBut(x: Info, y: Info) { x == y.(nRandomPos := x.nRandomPos) }

  /** No table and no entry but id has changed. */
  ghost predicate OnlyTouches(b: Book, c: Book, id: int) {
    && c.vvNew == b.vvNew && c.vvTried == b.vvTried
    && forall i :: i != id ==> (i in c.mapInfo <==> i in b.mapInfo) && (i in b.mapInfo ==> SameBut(c.mapInfo[i], b.mapInfo[i]))
  }

  lemma PlaceTaken(e: Env, p: Book, id: int, s: Slot)
    requires Weak(e, p, {id}) && id in p.mapInfo && (s in p.vvNew ==> p.vvNew[s] in p.mapInfo && p.vvNew[s] != id)
    ensures id in ClearNew(p, s).mapInfo
    ensures var c := Insert(ClearNew(p, s), id, s);
            && Taken(p, c, s, id) && c.vvTried == p.vvTried
            && SameBut(c.mapInfo[id], p.mapInfo[id].(nRefCount := p.mapInfo[id].nRefCount + 1))
  {
    ClearNewKeeps(e, p, s, {id});
    ClearNewSpares(p, s, id);
    var d := ClearNew(p, s);
    var c := Insert(d, id, s);
    assert c.vvNew == p.vvNew[s := id];
    if s in p.vvNew {
      var h := p.vvNew[s];
      assert EntryOk(e, p, h, {id}) && NewSlotOk(e, p, s);
    }
    assert d.mapInfo[id].nRandomPos == d.mapInfo[id].nRandomPos;
    forall i | i in c.mapInfo && i != id ensures c.mapInfo[i] == d.mapInfo[i] { }
  }

  /** An unknown address is stored exactly if the slot is free or its holder is terrible or has another reference. */
  lemma AddFresh(e: Env, b: Book, addr: Address, source: NetAddr, nTimePenalty: int, nNow: int, luck: bool)
    requires Inv(e, b) && e.valid(addr.svc.ip) && e.publicRange(addr.svc.ip) && addr.svc.ip !in b.mapAddr
    ensures var (c, r) := Add(e, b, addr, source, nTimePenalty, nNow, luck);
            var s, id := SlotFor(e, b, addr.svc, source), b.nIdCount;
            && (r <==> s !in b.vvNew
                       || (b.vvNew[s] in b.mapInfo
                           && (IsTerrible(b.mapInfo[b.vvNew[s]], nNow) || b.mapInfo[b.vvNew[s]].nRefCount > 1)))
            && c.vvTried == b.vvTried
            && (r ==> Taken(b, c, s, id) && id in c.mapInfo)
            && (r ==> SameBut(c.mapInfo[id],
                  Info(Address(addr.svc, if addr.nTime < nTimePenalty then 0 else addr.nTime - nTimePenalty, addr.nServices),
                       source, 0, 0, 0, 1, false, 0, false)))
            && (!r ==> OnlyTouches(b, c, id) && id !in c.mapInfo && c.mapAddr == b.mapAddr)
  {
    var given := FreshInfo(addr, nTimePenalty);
    var p, id := Create(b, given, source), b.nIdCount;
    var s := SlotFor(e, b, addr.svc, source);
    CreateKeeps(e, b, given, source);
    assert id !in b.mapInfo by { IdsBelow(b); }
    assert s == NewSlot(e, p, p.mapInfo[id], source);
    forall t | t in b.vvNew ensures b.vvNew[t] in b.mapInfo && b.vvNew[t] != id { assert NewSlotOk(e, b, t); }
    if s !in b.vvNew || IsTerrible(b.mapInfo[b.vvNew[s]], nNow) || b.mapInfo[b.vvNew[s]].nRefCount > 1 {
      PlaceTaken(e, p, id, s);
    } else {
      DeleteKeeps(e, p, id, {id});
      var c := Delete(p, id);
      assert c.mapAddr == b.mapAddr;
      forall i | i in c.mapInfo ensures SameBut(c.mapInfo[i], b.mapInfo[i]) { assert c.mapInfo[i].nRandomPos == c.mapInfo[i].nRandomPos; }
    }
  }

  /** An address that cannot be routed changes nothing. */
  lemma AddUnroutable(e: Env, b: Book, addr: Address, source: NetAddr, nTimePenalty: int, nNow: int, luck: bool)
    requires Inv(e, b) && !(e.valid(addr.svc.ip) && e.publicRange(addr.svc.ip))
    ensures Add(e, b, addr, source, nTimePenalty, nNow, luck) == (b, false)
  {
  }

  /** The time of a known entry after an advertisement: taken over, with the penalty, if it was not known or is older
      than an hour, or a day for a peer not seen in a day. */
  ghost predicate Advances(was: int, now: int, nTime: int, nTimePenalty: int, nNow: int) {
    var interval := if nNow < nTime + 86400 then 3600 else 86400;
    if nTime != 0 && (was == 0 || was + interval + nTimePenalty < nTime)
    then now >= 0 && (now == nTime - nTimePenalty || (now == 0 && nTime < nTimePenalty))
    else now == was
  }

  /** A known address gets its time and services updated.  It gets one more slot exactly if the advertisement is news,
      the entry is new and has less than eight references, the draw is in its favour, and the slot is not its own and
      free or held by a terrible entry. */
  lemma AddKnown(e: Env, b: Book, addr: Address, source: NetAddr, nTimePenalty: int, nNow: int, luck: bool)
    requires Inv(e, b) && e.valid(addr.svc.ip) && e.publicRange(addr.svc.ip) && addr.svc.ip in b.mapAddr
    ensures b.mapAddr[addr.svc.ip] in b.mapInfo
    ensures var (c, r) := Add(e, b, addr, source, nTimePenalty, nNow, luck);
            KnownAdded(e, b, c, r, b.mapAddr[addr.svc.ip], addr, source, nTimePenalty, nNow, luck)
  {
    assert AddrIndexed(b, addr.svc.ip);
    var id := b.mapAddr[addr.svc.ip];
    assert EntryOk(e, b, id, {});
    var info := Refresh(b.mapInfo[id], addr, nTimePenalty, nNow);
    RefreshIs(b.mapInfo[id], info, addr, nTimePenalty, nNow);
    PutStatsKeeps(e, b, id, info, {});
    AddKnownIs(e, b, addr, source, nTimePenalty, nNow, luck, id, info);
    WantsMoreIs(info, addr, luck);
    KnownCases(e, b, id, info, addr, source, nTimePenalty, nNow, luck);
  }

  ghost predicate KnownAdded(e: Env, b: Book, c: Book, r: bool, id: int, addr: Address, source: NetAddr, nTimePenalty: int, nNow: int, luck: bool)
    requires id in b.mapInfo
  {
    var was, s := b.mapInfo[id], SlotFor(e, b, b.mapInfo[id].addr.svc, source);
    && id in c.mapInfo && c.vvTried == b.vvTried && Updated(was, c.mapInfo[id], addr, nTimePenalty, nNow, r)
    && (r <==> && addr.nTime != 0 && (c.mapInfo[id].addr.nTime == 0 || c.mapInfo[id].addr.nTime < addr.nTime)
               && !was.fInTried && was.nRefCount < 8 && luck
               && (s !in b.vvNew || (b.vvNew[s] != id && b.vvNew[s] in b.mapInfo && IsTerrible(b.mapInfo[b.vvNew[s]], nNow))))
    && (if r then Taken(b, c, s, id) else OnlyTouches(b, c, id))
  }

  lemma KnownCases(e: Env, b: Book, id: int, info: Info, addr: Address, source: NetAddr, nTimePenalty: int, nNow: int, luck: bool)
    requires id in b.mapInfo && Updated(b.mapInfo[id], info, addr, nTimePenalty, nNow, false)
    requires info == b.mapInfo[id].(addr := info.addr) && Inv(e, Put(b, id, info))
    requires WantsMore(info, addr, luck) <==>
             addr.nTime != 0 && (info.addr.nTime == 0 || info.addr.nTime < addr.nTime) && !info.fInTried && info.nRefCount < 8 && luck
    ensures !WantsMore(info, addr, luck) ==> KnownAdded(e, b, Put(b, id, info), false, id, addr, source, nTimePenalty, nNow, luck)
    ensures WantsMore(info, addr, luck) ==>
              Weak(e, Put(b, id, info), {id}) &&
              var (c, r) := Place(e, Put(b, id, info), id, source, nNow);
              KnownAdded(e, b, c, r, id, addr, source, nTimePenalty, nNow, luck)
  {
    var p := Put(b, id, info);
    if WantsMore(info, addr, luck) {
      WidenPending(e, p, {}, {id});
      assert EntryOk(e, p, id, {});
      PlaceKnown(e, b, p, id, source, nNow);
      var (c, r) := Place(e, p, id, source, nNow);
      UpdatedMore(b.mapInfo[id], info, c.mapInfo[id], addr, nTimePenalty, nNow, r);
    }
  }

  lemma UpdatedMore(was: Info, mid: Info, now: Info, addr: Address, nTimePenalty: int, nNow: int, r: bool)
    requires Updated(was, mid, addr, nTimePenalty, nNow, false) && SameBut(now, mid.(nRefCount := mid.nRefCount + if r then 1 else 0))
    ensures Updated(was, now, addr, nTimePenalty, nNow, r)
  {
  }

  lemma AddKnownIs(e: Env, b: Book, addr: Address, source: NetAddr, nTimePenalty: int, nNow: int, luck: bool, id: int, info: Info)
    requires Inv(e, b) && e.valid(addr.svc.ip) && e.publicRange(addr.svc.ip) && addr.svc.ip in b.mapAddr && id == b.mapAddr[addr.svc.ip]
    requires id in b.mapInfo && info == Refresh(b.mapInfo[id], addr, nTimePenalty, nNow) && Inv(e, Put(b, id, info))
    ensures !WantsMore(info, addr, luck) ==> Add(e, b, addr, source, nTimePenalty, nNow, luck) == (Put(b, id, info), false)
    ensures WantsMore(info, addr, luck) ==>
              Weak(e, Put(b, id, info), {id}) &&
              Add(e, b, addr, source, nTimePenalty, nNow, luck) == Place(e, Put(b, id, info), id, source, nNow)
  {
    WidenPending(e, Put(b, id, info), {}, {id});
  }

  lemma WantsMoreIs(info: Info, addr: Address, luck: bool)
    requires 0 <= info.nRefCount <= 8 && (!info.fInTried ==> info.nRefCount != 0)
    ensures WantsMore(info, addr, luck) <==>
            addr.nTime != 0 && (info.addr.nTime == 0 || info.addr.nTime < addr.nTime) && !info.fInTried && info.nRefCount < 8 && luck
  {
  }

  /** What of a known entry changes: time, services, and one reference more if it gets a slot. */
  ghost predicate Updated(was: Info, now: Info, addr: Address, nTimePenalty: int, nNow: int, r: bool) {
    && Advances(was.addr.nTime, now.addr.nTime, addr.nTime, nTimePenalty, nNow)
    && now.addr.svc == was.addr.svc && now.addr.nServices == was.addr.nServices | addr.nServices
    && SameBut(now, was.(addr := now.addr, nRefCount := was.nRefCount + if r then 1 else 0))
  }

  lemma RefreshIs(was: Info, now: Info, addr: Address, nTimePenalty: int, nNow: int)
    requires now == Refresh(was, addr, nTimePenalty, nNow)
    ensures Updated(was, now, addr, nTimePenalty, nNow, false) && now == was.(addr := now.addr)
  {
  }

  lemma PlaceKnown(e: Env, b: Book, p: Book, id: int, source: NetAddr, nNow: int)
    requires Weak(e, p, {id}) && id in b.mapInfo && !b.mapInfo[id].fInTried && b.mapInfo[id].nRefCount != 0
    requires id in p.mapInfo && p == Put(b, id, b.mapInfo[id].(addr := p.mapInfo[id].addr))
    requires p.mapInfo[id].addr.svc == b.mapInfo[id].addr.svc
    ensures var (c, r) := Place(e, p, id, source, nNow);
            var s := SlotFor(e, b, b.mapInfo[id].addr.svc, source);
            && (r <==> s !in b.vvNew || (b.vvNew[s] != id && b.vvNew[s] in b.mapInfo && IsTerrible(b.mapInfo[b.vvNew[s]], nNow)))
            && id in c.mapInfo && c.vvTried == b.vvTried
            && SameBut(c.mapInfo[id], p.mapInfo[id].(nRefCount := p.mapInfo[id].nRefCount + if r then 1 else 0))
            && (if r then Taken(b, c, s, id) else OnlyTouches(b, c, id))
  {
    var s := SlotFor(e, b, b.mapInfo[id].addr.svc, source);
    assert s == NewSlot(e, p, p.mapInfo[id], source);
    if s in p.vvNew { assert NewSlotOk(e, p, s); }
    if s !in b.vvNew || (b.vvNew[s] != id && IsTerrible(b.mapInfo[b.vvNew[s]], nNow)) {
      PlaceTaken(e, p, id, s);
    }
  }

  // ----- Good

  /** Good_ of an entry in the new table: it leaves all its slots there and takes its tried slot; the entry that was
      there goes to the slot that its own source gives it. */
  lemma GoodTables(e: Env, b: Book, svc: Service, nTime: int)
    requires Inv(e, b) && 0 < nTime && Knows(b, svc)
    ensures var d, id := Good(e, b, svc, nTime), b.mapAddr[svc.ip];
            var s := TriedSlotFor(e, b, b.mapInfo[id].addr.svc);
            var left := b.vvNew - SlotsOf(b.vvNew, id);
            && d.vvTried == b.vvTried[s := id]
            && d.vvNew == if s !in b.vvTried || b.vvTried[s] == id || b.vvTried[s] !in b.mapInfo then left
                          else left[SlotFor(e, b, b.mapInfo[b.vvTried[s]].addr.svc, b.mapInfo[b.vvTried[s]].source) := b.vvTried[s]]
  {
    var id := IdOf(b, svc);
    var info := MarkGood(b.mapInfo[id], nTime);
    var p := Put(b, id, info);
    PutStatsKeeps(e, b, id, info, {});
    assert EntryOk(e, b, id, {});
    if info.fInTried {
      assert SlotsOf(b.vvNew, id) == {} by {
        forall t | t in b.vvNew ensures b.vvNew[t] != id { assert NewSlotOk(e, b, t); }
      }
    } else {
      MakeTriedTables(e, p, id);
    }
  }

  lemma MakeTriedTables(e: Env, b: Book, id: int)
    requires Inv(e, b) && id in b.mapInfo && !b.mapInfo[id].fInTried
    ensures var d, s := MakeTried(e, b, id), TriedSlot(e, b, b.mapInfo[id]);
            var left := b.vvNew - SlotsOf(b.vvNew, id);
            && d.vvTried == b.vvTried[s := id]
            && (s !in b.vvTried ==> d.vvNew == left)
            && (s in b.vvTried ==>
                  && b.vvTried[s] in b.mapInfo && b.vvTried[s] != id
                  && d.vvNew == left[SlotFor(e, b, b.mapInfo[b.vvTried[s]].addr.svc, b.mapInfo[b.vvTried[s]].source) := b.vvTried[s]])
  {
    ClearSlotsKeeps(e, b, id);
    var c := ClearSlots(b, id);
    var s := TriedSlot(e, b, b.mapInfo[id]);
    if s in c.vvTried {
      assert TriedSlotOk(e, c, s);
      var x := c.vvTried[s];
      DemoteKeeps(e, c, x, {id});
      DemoteContents(e, c, x, {id});
      EvictSparesId(e, c, x, id);
      DemoteTables(e, c, x, {id});
      assert Core(Demote(e, c, x).mapInfo[id]) == Core(c.mapInfo[id]);
    }
  }

  lemma DemoteTables(e: Env, b: Book, x: int, pending: set<int>)
    requires Weak(e, b, pending) && x in b.mapInfo && b.mapInfo[x].fInTried && x !in pending
    requires forall s <- b.vvNew :: b.vvNew[s] in b.mapInfo && b.vvNew[s] != x
    ensures Demote(e, b, x).vvNew == b.vvNew[SlotFor(e, b, b.mapInfo[x].addr.svc, b.mapInfo[x].source) := x]
  {
    var home := Home(e, b, x);
    ClearNewKeeps(e, b, home, pending);
    assert home == SlotFor(e, b, b.mapInfo[x].addr.svc, b.mapInfo[x].source);
  }

  /** Good_ marks a success now and forgets the failures; the advertised time stays. */
  lemma GoodMarks(e: Env, b: Book, svc: Service, nTime: int)
    requires Inv(e, b) && 0 < nTime && Knows(b, svc)
    ensures var d, id := Good(e, b, svc, nTime), b.mapAddr[svc.ip];
            && id in d.mapInfo
            && var was, now := b.mapInfo[id], d.mapInfo[id];
               now == Info(was.addr, was.source, nTime, nTime, 0, 0, true, now.nRandomPos, was.fLocal)
  {
    GoodContents(e, b, svc, nTime);
    GoodKeeps(e, b, svc, nTime);
    var d, id := Good(e, b, svc, nTime), IdOf(b, svc);
    assert EntryOk(e, d, id, {});
  }

  // ----- Attempt, Connected, SetLocal

  /** Nothing but the entry of svc has changed, and that is now x. */
  ghost predicate Becomes(b: Book, c: Book, svc: Service, x: Info) {
    && svc.ip in b.mapAddr
    && c == b.(mapInfo := c.mapInfo) && c.mapInfo == b.mapInfo[b.mapAddr[svc.ip] := x]
  }

  /** The three statistics calls: for a service that is not known, port included, nothing; otherwise the fields named
      and no others. */
  lemma StatsExact(b: Book, svc: Service, nTime: int)
    ensures !Knows(b, svc) ==> Attempt(b, svc, nTime) == b && Connected(b, svc, nTime) == b && SetLocal(b, svc) == b
    ensures Knows(b, svc) ==>
              var i := b.mapInfo[b.mapAddr[svc.ip]];
              && Becomes(b, Attempt(b, svc, nTime), svc,
                   Info(i.addr, i.source, i.nLastSuccess, nTime, i.nAttempts + 1, i.nRefCount, i.fInTried, i.nRandomPos, i.fLocal))
              && Becomes(b, Connected(b, svc, nTime), svc,
                   Info(Address(svc, if nTime > i.addr.nTime + 1200 then nTime else i.addr.nTime, i.addr.nServices), i.source,
                        i.nLastSuccess, i.nLastTry, i.nAttempts, i.nRefCount, i.fInTried, i.nRandomPos, i.fLocal))
              && Becomes(b, SetLocal(b, svc), svc,
                   Info(i.addr, i.source, i.nLastSuccess, i.nLastTry, i.nAttempts, i.nRefCount, i.fInTried, i.nRandomPos, true))
  {
  }
}
