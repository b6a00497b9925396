/** The address manager (src/addrman.h, src/addrman.cpp) as a value, and the invariant behind `Check_`.

  A `Book` holds the fields of `CAddrMan`; an occupied bucket slot is a key of its table's map and
  a slot holding -1 is not. The functions below say what each operation makes of a book. The class
  in AddrMan.dfy carries them out in place.
 */
module AddrBook {

  const TRIED_BUCKET_COUNT := 256
  const NEW_BUCKET_COUNT := 1024
  const BUCKET_SIZE := 64
  const NEW_BUCKETS_PER_ADDRESS := 8
  const HORIZON_DAYS := 30
  const RETRIES := 3
  const MAX_FAILURES := 10
  const MIN_FAIL_DAYS := 7
  const DAY := 24 * 60 * 60

  datatype Network = IPv4 | IPv6 | Onion | I2P | Cjdns | Internal
  datatype NetAddr = NetAddr(network: Network, bytes: seq<nat>)
  datatype Service = Service(ip: NetAddr, port: nat)
  datatype Address = Address(svc: Service, nTime: int, nServices: bv64)

  datatype Info = Info(
    addr: Address,
    source: NetAddr,
    nLastSuccess: int,
    nLastTry: int,
    nAttempts: int,
    nRefCount: int,
    fInTried: bool,
    nRandomPos: int,
    fLocal: bool)
  {
    function Ip(): NetAddr { addr.svc.ip }
  }

  function NewInfo(addr: Address, source: NetAddr): Info {
    Info(addr, source, 0, 0, 0, 0, false, -1, false)
  }

  datatype Slot = Slot(bucket: int, pos: int)

  /** What the code takes from elsewhere: address classification and the keyed hashes, which see the key,
      the AS map and the immutable parts of an entry. */
  datatype Env = Env(
    valid: NetAddr -> bool,
    publicRange: NetAddr -> bool,
    triedHash: (nat, seq<bool>, Service) -> nat,
    newHash: (nat, seq<bool>, NetAddr, NetAddr) -> nat,
    posHash: (nat, bool, int, Service) -> nat)

  datatype Book = Book(
    nKey: nat,
    asmap: seq<bool>,
    nIdCount: int,
    mapInfo: map<int, Info>,
    mapAddr: map<NetAddr, int>,
    vRandom: seq<int>,
    nTried: int,
    nNew: int,
    vvTried: map<Slot, int>,
    vvNew: map<Slot, int>)

  // ----- where an entry belongs

  function Position(e: Env, b: Book, fNew: bool, bucket: int, svc: Service): (p: int)
    ensures 0 <= p < BUCKET_SIZE
  {
    e.posHash(b.nKey, fNew, bucket, svc) % BUCKET_SIZE
  }

  function TriedSlot(e: Env, b: Book, info: Info): (s: Slot)
    ensures 0 <= s.bucket < TRIED_BUCKET_COUNT && 0 <= s.pos < BUCKET_SIZE
  {
    var bucket := e.triedHash(b.nKey, b.asmap, info.addr.svc) % TRIED_BUCKET_COUNT;
    Slot(bucket, Position(e, b, false, bucket, info.addr.svc))
  }

  function NewSlot(e: Env, b: Book, info: Info, source: NetAddr): (s: Slot)
    ensures 0 <= s.bucket < NEW_BUCKET_COUNT && 0 <= s.pos < BUCKET_SIZE
  {
    var bucket := e.newHash(b.nKey, b.asmap, info.Ip(), source) % NEW_BUCKET_COUNT;
    Slot(bucket, Position(e, b, true, bucket, info.addr.svc))
  }

  function IsTerrible(info: Info, nNow: int): bool {
    if info.fLocal then false
    else if info.nLastTry != 0 && info.nLastTry >= nNow - 60 then false
    else if info.addr.nTime > nNow + 10 * 60 then true
    else if info.addr.nTime == 0 || nNow - info.addr.nTime > HORIZON_DAYS * DAY then true
    else if info.nLastSuccess == 0 && info.nAttempts >= RETRIES then true
    else nNow - info.nLastSuccess > MIN_FAIL_DAYS * DAY && info.nAttempts >= MAX_FAILURES
  }

  // ----- the invariant

  function TriedIds(m: map<int, Info>): set<int> { set id | id in m && m[id].fInTried }

  function NewIds(m: map<int, Info>): set<int> { set id | id in m && !m[id].fInTried }

  function SlotsOf(t: map<Slot, int>, id: int): set<Slot> { set s | s in t && t[s] == id }

  ghost predicate IdPlaced(b: Book, id: int)
    requires id in b.mapInfo
  {
    var info := b.mapInfo[id];
    0 <= id < b.nIdCount && 0 <= info.nRandomPos < |b.vRandom| && b.vRandom[info.nRandomPos] == id
  }

  ghost predicate IdIndexed(b: Book, id: int)
    requires id in b.mapInfo
  {
    var info := b.mapInfo[id];
    IdPlaced(b, id) && info.Ip() in b.mapAddr && b.mapAddr[info.Ip()] == id
  }

  ghost predicate AddrIndexed(b: Book, a: NetAddr)
    requires a in b.mapAddr
  {
    b.mapAddr[a] in b.mapInfo && b.mapInfo[b.mapAddr[a]].Ip() == a
  }

  ghost predicate PosIndexed(b: Book, i: nat)
    requires i < |b.vRandom|
  {
    b.vRandom[i] in b.mapInfo && b.mapInfo[b.vRandom[i]].nRandomPos == i
  }

  /** mapInfo and vRandom are inverse to each other, and ids stay below nIdCount. */
  ghost predicate Placed(b: Book) {
    && 0 <= b.nIdCount
    && (forall id {:trigger IdPlaced(b, id)} :: id in b.mapInfo ==> IdPlaced(b, id))
    && (forall i {:trigger PosIndexed(b, i)} :: 0 <= i < |b.vRandom| ==> PosIndexed(b, i))
  }

  /** So is mapAddr. */
  ghost predicate Indexed(b: Book) {
    && Placed(b)
    && (forall id {:trigger IdIndexed(b, id)} :: id in b.mapInfo ==> IdIndexed(b, id))
    && (forall a {:trigger AddrIndexed(b, a)} :: a in b.mapAddr ==> AddrIndexed(b, a))
  }

  ghost predicate Counted(b: Book) {
    && b.nTried == |TriedIds(b.mapInfo)|
    && b.nNew == |NewIds(b.mapInfo)|
    && |b.vRandom| == b.nTried + b.nNew
  }

  /** What an entry says of itself: a valid address, no time before the epoch, and a success if it is tried. */
  ghost predicate Proper(e: Env, info: Info) {
    e.valid(info.Ip()) && 0 <= info.nLastTry && 0 <= info.nLastSuccess && (info.fInTried ==> info.nLastSuccess != 0)
  }

  /** The entry's part in the tables: its slots are counted, and a tried entry has its one slot. */
  ghost predicate Settled(e: Env, b: Book, id: int, pending: set<int>)
    requires id in b.mapInfo
  {
    var info := b.mapInfo[id];
    if info.fInTried then
      info.nRefCount == 0 && TriedSlot(e, b, info) in b.vvTried && b.vvTried[TriedSlot(e, b, info)] == id
    else
      && info.nRefCount == |SlotsOf(b.vvNew, id)| <= NEW_BUCKETS_PER_ADDRESS
      && (id !in pending ==> info.nRefCount != 0)
  }

  ghost predicate EntryOk(e: Env, b: Book, id: int, pending: set<int>)
    requires id in b.mapInfo
  {
    Proper(e, b.mapInfo[id]) && Settled(e, b, id, pending)
  }

  /** A slot of the tried table holds a tried entry that belongs there. */
  ghost predicate TriedSlotOk(e: Env, b: Book, s: Slot)
    requires s in b.vvTried
  {
    var id := b.vvTried[s];
    id in b.mapInfo && b.mapInfo[id].fInTried && s == TriedSlot(e, b, b.mapInfo[id])
  }

  /** A slot of the new table holds a new entry, at the position the bucket gives it. */
  ghost predicate NewSlotOk(e: Env, b: Book, s: Slot)
    requires s in b.vvNew
  {
    var id := b.vvNew[s];
    && id in b.mapInfo && !b.mapInfo[id].fInTried
    && 0 <= s.bucket < NEW_BUCKET_COUNT
    && s.pos == Position(e, b, true, s.bucket, b.mapInfo[id].addr.svc)
  }

  /** Reference counts are slot counts, and each tried entry fills exactly its own slot. The entries in
      `pending` are new entries that may be without a slot. */
  ghost predicate Tables(e: Env, b: Book, pending: set<int>) {
    && (forall s {:trigger TriedSlotOk(e, b, s)} :: s in b.vvTried ==> TriedSlotOk(e, b, s))
    && (forall s {:trigger NewSlotOk(e, b, s)} :: s in b.vvNew ==> NewSlotOk(e, b, s))
    && (forall id {:trigger EntryOk(e, b, id, pending)} :: id in b.mapInfo ==> EntryOk(e, b, id, pending))
  }

  /** The same, whatever the entries say of themselves. */
  ghost predicate Slotted(e: Env, b: Book, pending: set<int>) {
    && (forall s {:trigger TriedSlotOk(e, b, s)} :: s in b.vvTried ==> TriedSlotOk(e, b, s))
    && (forall s {:trigger NewSlotOk(e, b, s)} :: s in b.vvNew ==> NewSlotOk(e, b, s))
    && (forall id {:trigger Settled(e, b, id, pending)} :: id in b.mapInfo ==> Settled(e, b, id, pending))
  }

  ghost predicate Weak(e: Env, b: Book, pending: set<int>) {
    Indexed(b) && Counted(b) && Tables(e, b, pending)
  }

  /** Everything Check_ checks, and what it leaves implicit. */
  ghost predicate Inv(e: Env, b: Book) { Weak(e, b, {}) }

  // ----- the building blocks

  function Put(b: Book, id: int, info: Info): Book { b.(mapInfo := b.mapInfo[id := info]) }

  function Create(b: Book, addr: Address, source: NetAddr): Book {
    var id := b.nIdCount;
    b.(mapInfo := b.mapInfo[id := NewInfo(addr, source).(nRandomPos := |b.vRandom|)],
       mapAddr := b.mapAddr[addr.svc.ip := id],
       vRandom := b.vRandom + [id],
       nNew := b.nNew + 1,
       nIdCount := id + 1)
  }

  function SwapRandom(b: Book, p: nat, q: nat): (r: Book)
    requires p < |b.vRandom| && q < |b.vRandom|
    requires b.vRandom[p] in b.mapInfo && b.vRandom[q] in b.mapInfo
    ensures r == b.(mapInfo := r.mapInfo, vRandom := r.vRandom) && |r.vRandom| == |b.vRandom|
  {
    if p == q then b
    else
      var id1, id2 := b.vRandom[p], b.vRandom[q];
      var m := b.mapInfo[id1 := b.mapInfo[id1].(nRandomPos := q)];
      b.(mapInfo := m[id2 := m[id2].(nRandomPos := p)], vRandom := b.vRandom[p := id2][q := id1])
  }

  function Delete(b: Book, id: int): Book
    requires Placed(b) && id in b.mapInfo
  {
    assert IdPlaced(b, id) && PosIndexed(b, |b.vRandom| - 1);
    var last := |b.vRandom| - 1;
    var s := SwapRandom(b, b.mapInfo[id].nRandomPos, last);
    s.(vRandom := s.vRandom[..last],
       mapAddr := s.mapAddr - {b.mapInfo[id].Ip()},
       mapInfo := s.mapInfo - {id},
       nNew := s.nNew - 1)
  }

  /** ClearNew (lines 182-201): the entry at s loses a reference, and goes with its last one. */
  function ClearNew(b: Book, s: Slot): Book
    requires Indexed(b) && (s in b.vvNew ==> b.vvNew[s] in b.mapInfo)
  {
    if s !in b.vvNew then b
    else
      var id := b.vvNew[s];
      var info := b.mapInfo[id].(nRefCount := b.mapInfo[id].nRefCount - 1);
      var c := Put(b, id, info).(vvNew := b.vvNew - {s});
      PutIndexed(b, id, info);
      if info.nRefCount == 0 then Delete(c, id) else c
  }

  /** Lines 207-218: the entry leaves all new buckets. */
  function ClearSlots(b: Book, id: int): Book
    requires id in b.mapInfo
  {
    Put(b, id, b.mapInfo[id].(nRefCount := 0)).(vvNew := b.vvNew - SlotsOf(b.vvNew, id))
  }

  /** The slot a demoted entry falls back to. */
  function Home(e: Env, b: Book, id: int): Slot
    requires id in b.mapInfo
  {
    NewSlot(e, b, b.mapInfo[id], b.mapInfo[id].source)
  }

  /** Lines 226-248: a tried entry goes back to the new table, at the slot its own source gives it. */
  function Demote(e: Env, b: Book, id: int): Book
    requires Indexed(b) && id in b.mapInfo
    requires forall s <- b.vvNew :: b.vvNew[s] in b.mapInfo && b.vvNew[s] != id
  {
    var home := Home(e, b, id);
    var c := ClearNew(b, home);
    ClearNewSpares(b, home, id);
    c.(mapInfo := c.mapInfo[id := c.mapInfo[id].(fInTried := false, nRefCount := 1)],
       vvTried := c.vvTried - {TriedSlot(e, b, b.mapInfo[id])},
       vvNew := c.vvNew[home := id],
       nTried := c.nTried - 1,
       nNew := c.nNew + 1)
  }

  /** ClearNew deletes nothing but the entry it finds. */
  lemma ClearNewSpares(b: Book, s: Slot, id: int)
    requires Indexed(b) && id in b.mapInfo && (s in b.vvNew ==> b.vvNew[s] in b.mapInfo && b.vvNew[s] != id)
    ensures id in ClearNew(b, s).mapInfo
  {
  }

  /** Lines 251-253. */
  function Promote(e: Env, b: Book, id: int): Book
    requires id in b.mapInfo
  {
    b.(mapInfo := b.mapInfo[id := b.mapInfo[id].(fInTried := true)],
       vvTried := b.vvTried[TriedSlot(e, b, b.mapInfo[id]) := id],
       nTried := b.nTried + 1,
       nNew := b.nNew - 1)
  }

  // ----- what depends on what

  /** The entries of m and n differ in their vRandom positions at most. */
  ghost predicate SameButPos(m: map<int, Info>, n: map<int, Info>) {
    && (forall id :: id in m <==> id in n)
    && (forall id {:trigger m[id]} :: id in m ==> m[id] == n[id].(nRandomPos := m[id].nRandomPos))
  }

  /** The index does not depend on an entry's statistics, nor on the tables. */
  lemma PutIndexed(b: Book, id: int, info: Info)
    requires Indexed(b) && id in b.mapInfo
    requires info.Ip() == b.mapInfo[id].Ip() && info.nRandomPos == b.mapInfo[id].nRandomPos
    ensures forall t, u, k, l :: Indexed(Put(b, id, info).(vvNew := t, vvTried := u, nTried := k, nNew := l))
  {
    forall t, u, k, l ensures Indexed(Put(b, id, info).(vvNew := t, vvTried := u, nTried := k, nNew := l)) {
      var c := Put(b, id, info).(vvNew := t, vvTried := u, nTried := k, nNew := l);
      forall i | i in c.mapInfo ensures IdIndexed(c, i) { assert IdIndexed(b, i); }
      forall a | a in c.mapAddr ensures AddrIndexed(c, a) { assert AddrIndexed(b, a); }
      forall i | 0 <= i < |c.vRandom| ensures PosIndexed(c, i) { assert PosIndexed(b, i); }
    }
  }

  /** Only the tables, the key and what the entries say about them matter to the tables. */
  lemma SlottedFrame(e: Env, b: Book, c: Book, pending: set<int>)
    requires Slotted(e, b, pending) && SameButPos(c.mapInfo, b.mapInfo)
    requires c.vvTried == b.vvTried && c.vvNew == b.vvNew && c.nKey == b.nKey && c.asmap == b.asmap
    ensures Slotted(e, c, pending)
  {
    forall s | s in c.vvTried ensures TriedSlotOk(e, c, s) { assert TriedSlotOk(e, b, s); }
    forall s | s in c.vvNew ensures NewSlotOk(e, c, s) { assert NewSlotOk(e, b, s); }
    forall id | id in c.mapInfo ensures Settled(e, c, id, pending) { assert Settled(e, b, id, pending); }
  }

  lemma TablesFrame(e: Env, b: Book, c: Book, pending: set<int>)
    requires Tables(e, b, pending) && SameButPos(c.mapInfo, b.mapInfo)
    requires c.vvTried == b.vvTried && c.vvNew == b.vvNew && c.nKey == b.nKey && c.asmap == b.asmap
    ensures Tables(e, c, pending)
  {
    TablesAre(e, b, pending);
    SlottedFrame(e, b, c, pending);
    TablesAre(e, c, pending);
  }

  lemma TablesAre(e: Env, b: Book, pending: set<int>)
    ensures Tables(e, b, pending) <==> Slotted(e, b, pending) && forall id <- b.mapInfo :: Proper(e, b.mapInfo[id])
  {
    if Tables(e, b, pending) {
      forall id | id in b.mapInfo ensures Settled(e, b, id, pending) && Proper(e, b.mapInfo[id]) {
        assert EntryOk(e, b, id, pending);
      }
    }
    if Slotted(e, b, pending) && forall id <- b.mapInfo :: Proper(e, b.mapInfo[id]) {
      forall id | id in b.mapInfo ensures EntryOk(e, b, id, pending) { assert Settled(e, b, id, pending); }
    }
  }

  lemma SameCounts(m: map<int, Info>, n: map<int, Info>)
    requires forall id :: id in m <==> id in n
    requires forall id {:trigger m[id]} :: id in m ==> m[id].fInTried == n[id].fInTried
    ensures TriedIds(m) == TriedIds(n) && NewIds(m) == NewIds(n)
  {
    forall id ensures (id in TriedIds(m) <==> id in TriedIds(n)) && (id in NewIds(m) <==> id in NewIds(n)) {
      if id in m { assert m[id].fInTried == n[id].fInTried; }
    }
  }

  // ----- the building blocks keep the invariant

  lemma CardinalityAdd<T>(a: set<T>, b: set<T>, x: T)
    requires x !in a && b == a + {x}
    ensures |b| == |a| + 1
  {
  }

  lemma IdsBelow(b: Book)
    requires Placed(b)
    ensures forall id <- b.mapInfo :: 0 <= id < b.nIdCount
  {
    forall id | id in b.mapInfo ensures 0 <= id < b.nIdCount { assert IdPlaced(b, id); }
  }

  lemma CreateIndexed(b: Book, addr: Address, source: NetAddr)
    requires Indexed(b) && addr.svc.ip !in b.mapAddr
    ensures b.nIdCount !in b.mapInfo && Indexed(Create(b, addr, source))
  {
    var c := Create(b, addr, source);
    assert b.nIdCount !in b.mapInfo by { IdsBelow(b); }
    forall i | i in c.mapInfo ensures IdIndexed(c, i) { if i in b.mapInfo { assert IdIndexed(b, i); } }
    forall a | a in c.mapAddr ensures AddrIndexed(c, a) { if a in b.mapAddr { assert AddrIndexed(b, a); } }
    forall i | 0 <= i < |c.vRandom| ensures PosIndexed(c, i) { if i < |b.vRandom| { assert PosIndexed(b, i); } }
  }

  lemma CreateTables(e: Env, b: Book, addr: Address, source: NetAddr)
    requires b.nIdCount !in b.mapInfo && Tables(e, b, {}) && e.valid(addr.svc.ip)
    ensures Tables(e, Create(b, addr, source), {b.nIdCount})
  {
    var c, id := Create(b, addr, source), b.nIdCount;
    forall s | s in c.vvTried ensures TriedSlotOk(e, c, s) { assert TriedSlotOk(e, b, s); }
    forall s | s in c.vvNew ensures NewSlotOk(e, c, s) { assert NewSlotOk(e, b, s); }
    forall i | i in c.mapInfo ensures EntryOk(e, c, i, {id}) {
      if i == id {
        assert SlotsOf(c.vvNew, id) == {} by {
          forall s | s in c.vvNew ensures c.vvNew[s] != id { assert NewSlotOk(e, b, s); }
        }
      } else {
        assert EntryOk(e, b, i, {});
      }
    }
  }

  lemma CreateKeeps(e: Env, b: Book, addr: Address, source: NetAddr)
    requires Inv(e, b) && addr.svc.ip !in b.mapAddr && e.valid(addr.svc.ip)
    ensures Weak(e, Create(b, addr, source), {b.nIdCount})
  {
    var c := Create(b, addr, source);
    CreateIndexed(b, addr, source);
    CreateTables(e, b, addr, source);
    assert TriedIds(c.mapInfo) == TriedIds(b.mapInfo);
    CardinalityAdd(NewIds(b.mapInfo), NewIds(c.mapInfo), b.nIdCount);
  }

  lemma SwapPlaced(b: Book, p: nat, q: nat)
    requires Placed(b) && p < |b.vRandom| && q < |b.vRandom|
    ensures PosIndexed(b, p) && PosIndexed(b, q)
    ensures Placed(SwapRandom(b, p, q)) && SameButPos(SwapRandom(b, p, q).mapInfo, b.mapInfo)
  {
    assert PosIndexed(b, p) && PosIndexed(b, q);
    var c := SwapRandom(b, p, q);
    forall i | i in c.mapInfo ensures IdPlaced(c, i) { assert IdPlaced(b, i); }
    forall i | 0 <= i < |c.vRandom| ensures PosIndexed(c, i) { assert PosIndexed(b, i); }
  }

  lemma SwapIndexed(b: Book, p: nat, q: nat)
    requires Indexed(b) && p < |b.vRandom| && q < |b.vRandom|
    ensures PosIndexed(b, p) && PosIndexed(b, q)
    ensures Indexed(SwapRandom(b, p, q)) && SameButPos(SwapRandom(b, p, q).mapInfo, b.mapInfo)
  {
    SwapPlaced(b, p, q);
    var c := SwapRandom(b, p, q);
    forall i | i in c.mapInfo ensures IdIndexed(c, i) { assert IdIndexed(b, i) && IdPlaced(c, i); }
    forall a | a in c.mapAddr ensures AddrIndexed(c, a) { assert AddrIndexed(b, a); }
  }

  lemma SwapKeeps(e: Env, b: Book, p: nat, q: nat, pending: set<int>)
    requires Weak(e, b, pending) && p < |b.vRandom| && q < |b.vRandom|
    ensures PosIndexed(b, p) && PosIndexed(b, q)
    ensures Weak(e, SwapRandom(b, p, q), pending)
  {
    SwapIndexed(b, p, q);
    var c := SwapRandom(b, p, q);
    TablesFrame(e, b, c, pending);
    SameCounts(c.mapInfo, b.mapInfo);
  }

  lemma DeletePlaced(b: Book, id: int)
    requires Placed(b) && id in b.mapInfo
    ensures Placed(Delete(b, id)) && SameButPos(Delete(b, id).mapInfo, b.mapInfo - {id})
  {
    assert IdPlaced(b, id);
    var last := |b.vRandom| - 1;
    SwapPlaced(b, b.mapInfo[id].nRandomPos, last);
    var s, c := SwapRandom(b, b.mapInfo[id].nRandomPos, last), Delete(b, id);
    forall i | i in c.mapInfo ensures IdPlaced(c, i) { assert IdPlaced(s, i) && IdPlaced(s, id) && IdPlaced(b, i); }
    forall i | 0 <= i < |c.vRandom| ensures PosIndexed(c, i) { assert PosIndexed(s, i) && IdPlaced(s, id); }
  }

  lemma DeleteIndexed(b: Book, id: int)
    requires Indexed(b) && id in b.mapInfo
    ensures Indexed(Delete(b, id)) && SameButPos(Delete(b, id).mapInfo, b.mapInfo - {id})
  {
    DeletePlaced(b, id);
    var c := Delete(b, id);
    assert IdIndexed(b, id);
    forall i | i in c.mapInfo ensures IdIndexed(c, i) { assert IdIndexed(b, i) && IdPlaced(c, i); }
    forall a | a in c.mapAddr ensures AddrIndexed(c, a) { assert AddrIndexed(b, a); }
  }

  lemma DeleteSlotted(e: Env, b: Book, id: int, pending: set<int>)
    requires Placed(b) && Slotted(e, b, pending) && id in b.mapInfo
    requires !b.mapInfo[id].fInTried && b.mapInfo[id].nRefCount == 0
    ensures Slotted(e, Delete(b, id), pending - {id})
  {
    DeletePlaced(b, id);
    var c := b.(mapInfo := b.mapInfo - {id});
    assert Settled(e, b, id, pending);
    assert SlotsOf(b.vvNew, id) == {};
    forall s | s in c.vvTried ensures TriedSlotOk(e, c, s) { assert TriedSlotOk(e, b, s); }
    forall s | s in c.vvNew ensures NewSlotOk(e, c, s) {
      assert NewSlotOk(e, b, s);
      assert s !in SlotsOf(b.vvNew, id);
    }
    forall i | i in c.mapInfo ensures Settled(e, c, i, pending - {id}) { assert Settled(e, b, i, pending); }
    SlottedFrame(e, c, Delete(b, id), pending - {id});
  }

  lemma DeleteTables(e: Env, b: Book, id: int, pending: set<int>)
    requires Indexed(b) && Tables(e, b, pending) && id in b.mapInfo
    requires !b.mapInfo[id].fInTried && b.mapInfo[id].nRefCount == 0
    ensures Tables(e, Delete(b, id), pending - {id})
  {
    TablesAre(e, b, pending);
    DeleteSlotted(e, b, id, pending);
    DeleteIndexed(b, id);
    TablesAre(e, Delete(b, id), pending - {id});
  }

  lemma DeleteCounted(b: Book, id: int)
    requires Placed(b) && Counted(b) && id in b.mapInfo && !b.mapInfo[id].fInTried
    ensures Counted(Delete(b, id))
  {
    DeletePlaced(b, id);
    var c, m := Delete(b, id), b.mapInfo - {id};
    assert IdPlaced(b, id);
    SameCounts(c.mapInfo, m);
    assert TriedIds(m) == TriedIds(b.mapInfo);
    CardinalityAdd(NewIds(m), NewIds(b.mapInfo), id);
  }

  /** Delete removes one new entry without slots, and keeps everything else. */
  lemma DeleteKeeps(e: Env, b: Book, id: int, pending: set<int>)
    requires Weak(e, b, pending) && id in b.mapInfo
    requires !b.mapInfo[id].fInTried && b.mapInfo[id].nRefCount == 0
    ensures Weak(e, Delete(b, id), pending - {id})
    ensures SameButPos(Delete(b, id).mapInfo, b.mapInfo - {id})
  {
    DeleteIndexed(b, id);
    DeleteTables(e, b, id, pending);
    DeleteCounted(b, id);
  }

  lemma SlotsRemove(t: map<Slot, int>, s: Slot)
    requires s in t
    ensures |SlotsOf(t, t[s])| == |SlotsOf(t - {s}, t[s])| + 1
    ensures forall j :: j != t[s] ==> SlotsOf(t - {s}, j) == SlotsOf(t, j)
  {
    CardinalityAdd(SlotsOf(t - {s}, t[s]), SlotsOf(t, t[s]), s);
  }

  lemma SlotsInsert(t: map<Slot, int>, s: Slot, id: int)
    requires s !in t
    ensures |SlotsOf(t[s := id], id)| == |SlotsOf(t, id)| + 1
    ensures forall j :: j != id ==> SlotsOf(t[s := id], j) == SlotsOf(t, j)
  {
    CardinalityAdd(SlotsOf(t, id), SlotsOf(t[s := id], id), s);
  }

  lemma UnslotTables(e: Env, b: Book, s: Slot, pending: set<int>)
    requires Tables(e, b, pending) && s in b.vvNew
    ensures NewSlotOk(e, b, s)
    ensures var id := b.vvNew[s];
            var info := b.mapInfo[id].(nRefCount := b.mapInfo[id].nRefCount - 1);
            0 <= info.nRefCount && Tables(e, Put(b, id, info).(vvNew := b.vvNew - {s}), pending + {id})
  {
    assert NewSlotOk(e, b, s);
    var id := b.vvNew[s];
    var info := b.mapInfo[id].(nRefCount := b.mapInfo[id].nRefCount - 1);
    var c := Put(b, id, info).(vvNew := b.vvNew - {s});
    SlotsRemove(b.vvNew, s);
    assert EntryOk(e, b, id, pending);
    forall t | t in c.vvTried ensures TriedSlotOk(e, c, t) { assert TriedSlotOk(e, b, t); }
    forall t | t in c.vvNew ensures NewSlotOk(e, c, t) { assert NewSlotOk(e, b, t); }
    forall i | i in c.mapInfo ensures EntryOk(e, c, i, pending + {id}) { assert EntryOk(e, b, i, pending); }
  }

  lemma SettlePending(e: Env, b: Book, id: int, pending: set<int>)
    requires Tables(e, b, pending + {id}) && (id in b.mapInfo ==> b.mapInfo[id].nRefCount != 0)
    ensures Tables(e, b, pending)
  {
    forall s | s in b.vvTried ensures TriedSlotOk(e, b, s) { }
    forall i | i in b.mapInfo ensures EntryOk(e, b, i, pending) { assert EntryOk(e, b, i, pending + {id}); }
  }

  /** ClearNew frees the slot; the entry it held loses one reference, and is deleted with the last. */
  lemma ClearNewKeeps(e: Env, b: Book, s: Slot, pending: set<int>)
    requires Weak(e, b, pending)
    ensures s in b.vvNew ==> NewSlotOk(e, b, s)
    ensures var c := ClearNew(b, s);
            && Weak(e, c, pending) && c.vvNew == b.vvNew - {s} && c.vvTried == b.vvTried
            && c.nKey == b.nKey && c.asmap == b.asmap
    ensures var c := ClearNew(b, s);
            if s !in b.vvNew then c == b
            else
              var id := b.vvNew[s];
              var info := b.mapInfo[id].(nRefCount := b.mapInfo[id].nRefCount - 1);
              SameButPos(c.mapInfo, if info.nRefCount == 0 then b.mapInfo - {id} else b.mapInfo[id := info])
  {
    if s in b.vvNew {
      UnslotTables(e, b, s, pending);
      var id := b.vvNew[s];
      var info := b.mapInfo[id].(nRefCount := b.mapInfo[id].nRefCount - 1);
      var c := Put(b, id, info).(vvNew := b.vvNew - {s});
      PutIndexed(b, id, info);
      assert c == Put(b, id, info).(vvNew := b.vvNew - {s}, vvTried := b.vvTried, nTried := b.nTried, nNew := b.nNew);
      SameCounts(c.mapInfo, b.mapInfo);
      if info.nRefCount == 0 {
        DeleteKeeps(e, c, id, pending + {id});
        assert b.mapInfo[id := info] - {id} == b.mapInfo - {id};
        assert EntryOk(e, b, id, pending) && b.mapInfo[id].nRefCount != 0;
        WidenPending(e, Delete(c, id), pending + {id} - {id}, pending);
      } else {
        SettlePending(e, c, id, pending);
      }
    }
  }

  lemma WidenPending(e: Env, b: Book, p: set<int>, q: set<int>)
    requires Tables(e, b, p) && p <= q
    ensures Tables(e, b, q)
  {
    forall i | i in b.mapInfo ensures EntryOk(e, b, i, q) { assert EntryOk(e, b, i, p); }
  }

  /** What of an entry moving between the tables leaves alone. */
  function Core(info: Info): Info { info.(nRandomPos := 0, nRefCount := 0, fInTried := false) }

  /** Entry i is in both, with the same data and in the same table. */
  ghost predicate Carried(m: map<int, Info>, n: map<int, Info>, i: int)
    requires i in m
  {
    i in n && Core(m[i]) == Core(n[i]) && m[i].fInTried == n[i].fInTried
  }

  ghost predicate Carries(m: map<int, Info>, n: map<int, Info>) {
    forall i {:trigger Carried(m, n, i)} :: i in m ==> Carried(m, n, i)
  }

  /** The entry that goes when slot s is cleared: its holder, if this was its last slot. */
  function PushedOut(b: Book, s: Slot): set<int> {
    if s in b.vvNew && b.vvNew[s] in b.mapInfo && b.mapInfo[b.vvNew[s]].nRefCount == 1 then {b.vvNew[s]} else {}
  }

  lemma ClearNewContents(e: Env, b: Book, s: Slot, pending: set<int>)
    requires Weak(e, b, pending) && (s in b.vvNew ==> b.vvNew[s] in b.mapInfo)
    ensures var c := ClearNew(b, s);
            c.mapInfo.Keys == b.mapInfo.Keys - PushedOut(b, s) && Carries(c.mapInfo, b.mapInfo)
    ensures var c := ClearNew(b, s);
            forall i <- c.mapInfo :: !(s in b.vvNew && b.vvNew[s] == i) ==> c.mapInfo[i].nRefCount == b.mapInfo[i].nRefCount
  {
    ClearNewKeeps(e, b, s, pending);
    var c := ClearNew(b, s);
    forall i | i in c.mapInfo
      ensures Carried(c.mapInfo, b.mapInfo, i)
      ensures !(s in b.vvNew && b.vvNew[s] == i) ==> c.mapInfo[i].nRefCount == b.mapInfo[i].nRefCount
    {
      assert c.mapInfo[i].nRandomPos == c.mapInfo[i].nRandomPos;
    }
  }

  lemma ClearSlotsKeeps(e: Env, b: Book, id: int)
    requires Inv(e, b) && id in b.mapInfo && !b.mapInfo[id].fInTried
    ensures Weak(e, ClearSlots(b, id), {id})
    ensures SlotsOf(ClearSlots(b, id).vvNew, id) == {}
  {
    var c := ClearSlots(b, id);
    PutIndexed(b, id, b.mapInfo[id].(nRefCount := 0));
    assert c == Put(b, id, b.mapInfo[id].(nRefCount := 0)).(vvNew := c.vvNew, vvTried := b.vvTried, nTried := b.nTried, nNew := b.nNew);
    SameCounts(c.mapInfo, b.mapInfo);
    assert EntryOk(e, b, id, {});
    assert SlotsOf(c.vvNew, id) == {};
    forall t | t in c.vvTried ensures TriedSlotOk(e, c, t) { assert TriedSlotOk(e, b, t); }
    forall t | t in c.vvNew ensures NewSlotOk(e, c, t) { assert NewSlotOk(e, b, t); }
    forall i | i in c.mapInfo ensures EntryOk(e, c, i, {id}) {
      assert EntryOk(e, b, i, {});
      if i != id { assert SlotsOf(c.vvNew, i) == SlotsOf(b.vvNew, i); }
    }
  }

  /** Moving a flag from new to tried or back moves one entry between the two counts. */
  lemma FlipCounts(m: map<int, Info>, id: int, info: Info)
    requires id in m && m[id].fInTried && !info.fInTried
    ensures |TriedIds(m[id := info])| == |TriedIds(m)| - 1
    ensures |NewIds(m[id := info])| == |NewIds(m)| + 1
  {
    CardinalityAdd(TriedIds(m[id := info]), TriedIds(m), id);
    CardinalityAdd(NewIds(m), NewIds(m[id := info]), id);
  }

  lemma PromoteKeeps(e: Env, b: Book, id: int)
    requires Weak(e, b, {id}) && id in b.mapInfo && !b.mapInfo[id].fInTried && b.mapInfo[id].nRefCount == 0
    requires b.mapInfo[id].nLastSuccess != 0 && TriedSlot(e, b, b.mapInfo[id]) !in b.vvTried
    ensures Inv(e, Promote(e, b, id))
  {
    var c, s := Promote(e, b, id), TriedSlot(e, b, b.mapInfo[id]);
    PutIndexed(b, id, b.mapInfo[id].(fInTried := true));
    assert c == Put(b, id, c.mapInfo[id]).(vvNew := b.vvNew, vvTried := c.vvTried, nTried := c.nTried, nNew := c.nNew);
    FlipCounts(c.mapInfo, id, b.mapInfo[id]);
    assert c.mapInfo[id := b.mapInfo[id]] == b.mapInfo;
    assert EntryOk(e, b, id, {id});
    assert SlotsOf(b.vvNew, id) == {};
    forall t | t in c.vvTried ensures TriedSlotOk(e, c, t) { if t != s { assert TriedSlotOk(e, b, t); } }
    forall t | t in c.vvNew ensures NewSlotOk(e, c, t) {
      assert NewSlotOk(e, b, t);
      assert t !in SlotsOf(b.vvNew, id);
    }
    forall i | i in c.mapInfo ensures EntryOk(e, c, i, {}) {
      assert EntryOk(e, b, i, {id});
    }
  }

  lemma DemoteSwitch(e: Env, c: Book, id: int, home: Slot, pending: set<int>)
    requires Weak(e, c, pending) && id in c.mapInfo && c.mapInfo[id].fInTried
    requires home == Home(e, c, id) && home !in c.vvNew && id !in pending
    ensures Weak(e,
      c.(mapInfo := c.mapInfo[id := c.mapInfo[id].(fInTried := false, nRefCount := 1)],
         vvTried := c.vvTried - {TriedSlot(e, c, c.mapInfo[id])}, vvNew := c.vvNew[home := id],
         nTried := c.nTried - 1, nNew := c.nNew + 1), pending)
  {
    var info := c.mapInfo[id].(fInTried := false, nRefCount := 1);
    var s := TriedSlot(e, c, c.mapInfo[id]);
    var d := c.(mapInfo := c.mapInfo[id := info], vvTried := c.vvTried - {s}, vvNew := c.vvNew[home := id],
                nTried := c.nTried - 1, nNew := c.nNew + 1);
    PutIndexed(c, id, info);
    assert d == Put(c, id, info).(vvNew := d.vvNew, vvTried := d.vvTried, nTried := d.nTried, nNew := d.nNew);
    FlipCounts(c.mapInfo, id, info);
    DemoteSlots(e, c, id, home, pending);
    forall t | t in d.vvTried ensures TriedSlotOk(e, d, t) {
      assert TriedSlotOk(e, c, t);
    }
    forall t | t in d.vvNew ensures NewSlotOk(e, d, t) {
      if t != home { assert NewSlotOk(e, c, t); }
    }
    forall i | i in d.mapInfo ensures EntryOk(e, d, i, pending) {
      assert EntryOk(e, c, i, pending) && EntryOk(e, c, id, pending);
    }
  }

  lemma DemoteSlots(e: Env, c: Book, id: int, home: Slot, pending: set<int>)
    requires Tables(e, c, pending) && id in c.mapInfo && c.mapInfo[id].fInTried && home !in c.vvNew
    ensures |SlotsOf(c.vvNew[home := id], id)| == 1
    ensures forall j :: j != id ==> SlotsOf(c.vvNew[home := id], j) == SlotsOf(c.vvNew, j)
  {
    assert SlotsOf(c.vvNew, id) == {} by {
      forall s | s in c.vvNew ensures c.vvNew[s] != id { assert NewSlotOk(e, c, s); }
    }
    SlotsInsert(c.vvNew, home, id);
  }

  /** The entry that loses its place to a demoted one: the holder of its home slot, if that was its last. */
  function Displaced(e: Env, b: Book, id: int): set<int>
    requires id in b.mapInfo
  {
    PushedOut(b, Home(e, b, id))
  }

  lemma DemoteCleared(e: Env, b: Book, id: int, home: Slot, pending: set<int>)
    requires Weak(e, b, pending) && id in b.mapInfo && b.mapInfo[id].fInTried && home == Home(e, b, id)
    requires forall s <- b.vvNew :: b.vvNew[s] in b.mapInfo && b.vvNew[s] != id
    ensures var c := ClearNew(b, home);
            && Weak(e, c, pending) && id in c.mapInfo && c.mapInfo[id].fInTried && home !in c.vvNew && home == Home(e, c, id)
            && c.vvTried == b.vvTried && c.nKey == b.nKey && c.asmap == b.asmap
            && TriedSlot(e, c, c.mapInfo[id]) == TriedSlot(e, b, b.mapInfo[id])
  {
    ClearNewKeeps(e, b, home, pending);
    ClearNewSpares(b, home, id);
    var c := ClearNew(b, home);
    assert c.mapInfo[id] == b.mapInfo[id].(nRandomPos := c.mapInfo[id].nRandomPos);
  }

  lemma DemoteKeeps(e: Env, b: Book, id: int, pending: set<int>)
    requires Weak(e, b, pending) && id in b.mapInfo && b.mapInfo[id].fInTried && id !in pending
    ensures forall s <- b.vvNew :: b.vvNew[s] in b.mapInfo && b.vvNew[s] != id
    ensures var d := Demote(e, b, id);
            && Weak(e, d, pending)
            && d.vvTried == b.vvTried - {TriedSlot(e, b, b.mapInfo[id])}
            && d.nKey == b.nKey && d.asmap == b.asmap
  {
    forall s | s in b.vvNew ensures b.vvNew[s] in b.mapInfo && b.vvNew[s] != id { assert NewSlotOk(e, b, s); }
    var home := Home(e, b, id);
    DemoteCleared(e, b, id, home, pending);
    DemoteSwitch(e, ClearNew(b, home), id, home, pending);
  }

  lemma DemoteContents(e: Env, b: Book, id: int, pending: set<int>)
    requires Weak(e, b, pending) && id in b.mapInfo && b.mapInfo[id].fInTried && id !in pending
    requires forall s <- b.vvNew :: b.vvNew[s] in b.mapInfo && b.vvNew[s] != id
    ensures var d := Demote(e, b, id);
            && d.mapInfo.Keys == b.mapInfo.Keys - Displaced(e, b, id)
            && forall i <- d.mapInfo ::
                 && Core(d.mapInfo[i]) == Core(b.mapInfo[i])
                 && d.mapInfo[i].fInTried == (b.mapInfo[i].fInTried && i != id)
                 && (SlotsOf(b.vvNew, i) == {} && i != id ==> d.mapInfo[i].nRefCount == b.mapInfo[i].nRefCount)
  {
    var home := Home(e, b, id);
    ClearNewContents(e, b, home, pending);
    ClearNewSpares(b, home, id);
    var c, d := ClearNew(b, home), Demote(e, b, id);
    assert d.mapInfo.Keys == c.mapInfo.Keys;
    assert home in b.vvNew ==> home in SlotsOf(b.vvNew, b.vvNew[home]);
    forall i | i in d.mapInfo
      ensures Core(d.mapInfo[i]) == Core(b.mapInfo[i]) && d.mapInfo[i].fInTried == (b.mapInfo[i].fInTried && i != id)
      ensures SlotsOf(b.vvNew, i) == {} && i != id ==> d.mapInfo[i].nRefCount == b.mapInfo[i].nRefCount
    {
      assert Carried(c.mapInfo, b.mapInfo, i);
    }
  }

  // ----- MakeTried and Good

  /** MakeTried (lines 203-254): leave the new table, evict whoever holds the tried slot, take the slot. */
  ghost function MakeTried(e: Env, b: Book, id: int): Book
    requires Inv(e, b) && id in b.mapInfo && !b.mapInfo[id].fInTried
  {
    ClearSlotsKeeps(e, b, id);
    var c := ClearSlots(b, id);
    var s := TriedSlot(e, b, b.mapInfo[id]);
    if s !in c.vvTried then Promote(e, c, id)
    else
      assert TriedSlotOk(e, c, s);
      DemoteKeeps(e, c, c.vvTried[s], {id});
      DemoteContents(e, c, c.vvTried[s], {id});
      EvictSparesId(e, c, c.vvTried[s], id);
      Promote(e, Demote(e, c, c.vvTried[s]), id)
  }

  /** The entry being promoted has no slot left, so the evicted one cannot push it out. */
  lemma EvictSparesId(e: Env, c: Book, evicted: int, id: int)
    requires evicted in c.mapInfo && SlotsOf(c.vvNew, id) == {}
    ensures id !in Displaced(e, c, evicted)
  {
    var home := Home(e, c, evicted);
    assert home in c.vvNew && c.vvNew[home] == id ==> home in SlotsOf(c.vvNew, id);
  }

  /** The tried entry that has to make room for id. */
  function Evicted(e: Env, b: Book, id: int): set<int>
    requires id in b.mapInfo
  {
    var s := TriedSlot(e, b, b.mapInfo[id]);
    if s in b.vvTried then {b.vvTried[s]} else {}
  }

  /** The entries MakeTried costs: at most the one that an evicted entry displaces. */
  function Lost(e: Env, b: Book, id: int): set<int>
    requires id in b.mapInfo
  {
    set x, d | x in Evicted(e, b, id) && x in ClearSlots(b, id).mapInfo && d in Displaced(e, ClearSlots(b, id), x) :: d
  }

  lemma MakeTriedKeeps(e: Env, b: Book, id: int)
    requires Inv(e, b) && id in b.mapInfo && !b.mapInfo[id].fInTried && b.mapInfo[id].nLastSuccess != 0
    ensures Inv(e, MakeTried(e, b, id))
  {
    ClearSlotsKeeps(e, b, id);
    var c := ClearSlots(b, id);
    var s := TriedSlot(e, b, b.mapInfo[id]);
    if s in c.vvTried {
      assert TriedSlotOk(e, c, s);
      var x := c.vvTried[s];
      DemoteKeeps(e, c, x, {id});
      DemoteContents(e, c, x, {id});
      EvictSparesId(e, c, x, id);
      assert Core(Demote(e, c, x).mapInfo[id]) == Core(c.mapInfo[id]);
      PromoteKeeps(e, Demote(e, c, x), id);
    } else {
      PromoteKeeps(e, c, id);
    }
  }

  /** Nobody is lost but the displaced entry; only id and the evicted entry change tables. */
  lemma MakeTriedContents(e: Env, b: Book, id: int)
    requires Inv(e, b) && id in b.mapInfo && !b.mapInfo[id].fInTried
    ensures var d := MakeTried(e, b, id);
            && d.mapInfo.Keys == b.mapInfo.Keys - Lost(e, b, id)
            && |Lost(e, b, id)| <= 1 && id !in Lost(e, b, id) && Evicted(e, b, id) !! Lost(e, b, id)
            && forall i <- d.mapInfo ::
                 && Core(d.mapInfo[i]) == Core(b.mapInfo[i])
                 && d.mapInfo[i].fInTried == (i == id || (b.mapInfo[i].fInTried && i !in Evicted(e, b, id)))
  {
    ClearSlotsKeeps(e, b, id);
    var c := ClearSlots(b, id);
    var s := TriedSlot(e, b, b.mapInfo[id]);
    LostIs(e, b, id);
    if s in c.vvTried {
      assert TriedSlotOk(e, c, s);
      var x := c.vvTried[s];
      forall t | t in c.vvNew ensures c.vvNew[t] in c.mapInfo && c.vvNew[t] != x { assert NewSlotOk(e, c, t); }
      EvictContents(e, c, x, id);
      assert MakeTried(e, b, id) == Promote(e, Demote(e, c, x), id);
    }
  }

  lemma EvictContents(e: Env, c: Book, x: int, id: int)
    requires Weak(e, c, {id}) && x in c.mapInfo && c.mapInfo[x].fInTried
    requires id in c.mapInfo && id != x && SlotsOf(c.vvNew, id) == {}
    requires forall s <- c.vvNew :: c.vvNew[s] in c.mapInfo && c.vvNew[s] != x
    ensures id in Demote(e, c, x).mapInfo
    ensures |Displaced(e, c, x)| <= 1 && id !in Displaced(e, c, x) && x !in Displaced(e, c, x)
    ensures var d := Promote(e, Demote(e, c, x), id);
            && d.mapInfo.Keys == c.mapInfo.Keys - Displaced(e, c, x)
            && forall i <- d.mapInfo ::
                 Core(d.mapInfo[i]) == Core(c.mapInfo[i]) && d.mapInfo[i].fInTried == (i == id || (c.mapInfo[i].fInTried && i != x))
  {
    DemoteContents(e, c, x, {id});
    EvictSparesId(e, c, x, id);
  }

  lemma LostIs(e: Env, b: Book, id: int)
    requires id in b.mapInfo
    ensures var s := TriedSlot(e, b, b.mapInfo[id]);
            if s !in b.vvTried then Lost(e, b, id) == {}
            else b.vvTried[s] in b.mapInfo ==> Lost(e, b, id) == Displaced(e, ClearSlots(b, id), b.vvTried[s])
  {
  }

  /** Times, attempts, services and locality may change without the tables noticing. */
  lemma PutStatsKeeps(e: Env, b: Book, id: int, info: Info, pending: set<int>)
    requires Weak(e, b, pending) && id in b.mapInfo
    requires info.addr.svc == b.mapInfo[id].addr.svc && info.fInTried == b.mapInfo[id].fInTried
    requires info.nRefCount == b.mapInfo[id].nRefCount && info.nRandomPos == b.mapInfo[id].nRandomPos
    requires 0 <= info.nLastTry && 0 <= info.nLastSuccess && (info.fInTried ==> info.nLastSuccess != 0)
    ensures Weak(e, Put(b, id, info), pending)
  {
    var c := Put(b, id, info);
    PutIndexed(b, id, info);
    assert c == Put(b, id, info).(vvNew := b.vvNew, vvTried := b.vvTried, nTried := b.nTried, nNew := b.nNew);
    SameCounts(c.mapInfo, b.mapInfo);
    forall t | t in c.vvTried ensures TriedSlotOk(e, c, t) { assert TriedSlotOk(e, b, t); }
    forall t | t in c.vvNew ensures NewSlotOk(e, c, t) { assert NewSlotOk(e, b, t); }
    forall i | i in c.mapInfo ensures EntryOk(e, c, i, pending) { assert EntryOk(e, b, i, pending); }
  }

  /** Find with the port check that Good_, Attempt_, Connected_ and SetLocal_ add to it. */
  predicate Knows(b: Book, svc: Service) {
    svc.ip in b.mapAddr && b.mapAddr[svc.ip] in b.mapInfo && b.mapInfo[b.mapAddr[svc.ip]].addr.svc == svc
  }

  function IdOf(b: Book, svc: Service): int
    requires Knows(b, svc)
  {
    b.mapAddr[svc.ip]
  }

  function MarkGood(info: Info, nTime: int): Info {
    info.(nLastSuccess := nTime, nLastTry := nTime, nAttempts := 0)
  }

  /** Good_ (lines 256-303). That the search for a bucket succeeds is GoodFindsBucket. */
  ghost function Good(e: Env, b: Book, svc: Service, nTime: int): Book
    requires Inv(e, b) && 0 < nTime
  {
    if !Knows(b, svc) then b
    else
      var id := IdOf(b, svc);
      var c := Put(b, id, MarkGood(b.mapInfo[id], nTime));
      PutStatsKeeps(e, b, id, MarkGood(b.mapInfo[id], nTime), {});
      if b.mapInfo[id].fInTried then c else MakeTried(e, c, id)
  }

  lemma GoodKeeps(e: Env, b: Book, svc: Service, nTime: int)
    requires Inv(e, b) && 0 < nTime
    ensures Inv(e, Good(e, b, svc, nTime))
  {
    if Knows(b, svc) {
      var id := IdOf(b, svc);
      var info := MarkGood(b.mapInfo[id], nTime);
      PutStatsKeeps(e, b, id, info, {});
      if !info.fInTried { MakeTriedKeeps(e, Put(b, id, info), id); }
    }
  }

  /** Good_ marks the one entry, moves it to tried if it was not there, sends the holder of its tried slot
      back to new, and loses at most the new entry that one displaces. */
  lemma GoodContents(e: Env, b: Book, svc: Service, nTime: int)
    requires Inv(e, b) && 0 < nTime && Knows(b, svc)
    ensures var d, id := Good(e, b, svc, nTime), IdOf(b, svc);
            && id in d.mapInfo && d.mapInfo[id].fInTried
            && Core(d.mapInfo[id]) == Core(MarkGood(b.mapInfo[id], nTime))
            && d.mapInfo.Keys == b.mapInfo.Keys - (if b.mapInfo[id].fInTried then {} else Lost(e, b, id))
            && (forall i <- d.mapInfo :: i != id ==>
                  && Core(d.mapInfo[i]) == Core(b.mapInfo[i])
                  && (d.mapInfo[i].fInTried <==> b.mapInfo[i].fInTried && i !in Evicted(e, b, id)))
  {
    var id := IdOf(b, svc);
    var info := MarkGood(b.mapInfo[id], nTime);
    var c := Put(b, id, info);
    PutStatsKeeps(e, b, id, info, {});
    if !info.fInTried {
      MakeTriedContents(e, c, id);
      LostSame(e, b, id, info);
    } else {
      assert EntryOk(e, b, id, {});
      TriedSlotsApart(e, b, id);
    }
  }

  /** A tried entry has nobody but itself to evict. */
  lemma TriedSlotsApart(e: Env, b: Book, id: int)
    requires Inv(e, b) && id in b.mapInfo && b.mapInfo[id].fInTried
    ensures Evicted(e, b, id) == {id}
  {
    assert EntryOk(e, b, id, {});
  }

  /** What an entry evicts and displaces does not depend on its statistics. */
  lemma LostSame(e: Env, b: Book, id: int, info: Info)
    requires Inv(e, b) && id in b.mapInfo && !b.mapInfo[id].fInTried
    requires info == b.mapInfo[id].(nLastSuccess := info.nLastSuccess, nLastTry := info.nLastTry, nAttempts := info.nAttempts)
    ensures Evicted(e, Put(b, id, info), id) == Evicted(e, b, id)
    ensures Lost(e, Put(b, id, info), id) == Lost(e, b, id)
  {
    var c := Put(b, id, info);
    var s := TriedSlot(e, b, info);
    if s in b.vvTried {
      assert TriedSlotOk(e, b, s);
      var x := b.vvTried[s];
      assert x != id;
      assert Displaced(e, ClearSlots(c, id), x) == Displaced(e, ClearSlots(b, id), x);
    }
  }

  /** An entry that is not tried sits in some new bucket, at the position that bucket gives it: the
      "something bad happened" exit of Good_ is dead. */
  lemma GoodFindsBucket(e: Env, b: Book, id: int) returns (bucket: int)
    requires Inv(e, b) && id in b.mapInfo && !b.mapInfo[id].fInTried
    ensures 0 <= bucket < NEW_BUCKET_COUNT
    ensures var s := Slot(bucket, Position(e, b, true, bucket, b.mapInfo[id].addr.svc));
            s in b.vvNew && b.vvNew[s] == id
  {
    assert EntryOk(e, b, id, {});
    var s :| s in SlotsOf(b.vvNew, id);
    assert NewSlotOk(e, b, s);
    bucket := s.bucket;
  }

  // ----- Add

  /** Lines 315-321: what an advertisement changes in a known entry. */
  function Refresh(info: Info, addr: Address, nTimePenalty: int, nNow: int): Info {
    var online := nNow - addr.nTime < DAY;
    var interval := if online then 60 * 60 else DAY;
    var later := addr.nTime - nTimePenalty;
    var nTime := if addr.nTime != 0 && (info.addr.nTime == 0 || info.addr.nTime < addr.nTime - interval - nTimePenalty)
                 then (if later < 0 then 0 else later) else info.addr.nTime;
    info.(addr := info.addr.(nTime := nTime, nServices := info.addr.nServices | addr.nServices))
  }

  /** Lines 324-340: whether a known entry may get one more reference. `luck` is the outcome of
      RandomInt(2^nRefCount) being zero. */
  predicate WantsMore(info: Info, addr: Address, luck: bool) {
    && addr.nTime != 0 && !(info.addr.nTime != 0 && addr.nTime <= info.addr.nTime)
    && !info.fInTried
    && info.nRefCount != NEW_BUCKETS_PER_ADDRESS
    && (info.nRefCount == 0 || luck)
  }

  function FreshInfo(addr: Address, nTimePenalty: int): Address {
    var later := addr.nTime - nTimePenalty;
    addr.(nTime := if later < 0 then 0 else later)
  }

  /** Lines 348-359: whether the slot is, or may be made, free for an entry with nRefCount references. */
  predicate MayTake(b: Book, s: Slot, nRefCount: int, nNow: int) {
    s !in b.vvNew ||
    (b.vvNew[s] in b.mapInfo &&
     (IsTerrible(b.mapInfo[b.vvNew[s]], nNow) || (b.mapInfo[b.vvNew[s]].nRefCount > 1 && nRefCount == 0)))
  }

  function Insert(b: Book, id: int, s: Slot): Book
    requires id in b.mapInfo
  {
    Put(b, id, b.mapInfo[id].(nRefCount := b.mapInfo[id].nRefCount + 1)).(vvNew := b.vvNew[s := id])
  }

  /** Lines 346-370: give entry id the slot for this source, if it may have it. */
  ghost function Place(e: Env, b: Book, id: int, source: NetAddr, nNow: int): (Book, bool)
    requires Weak(e, b, {id}) && id in b.mapInfo && !b.mapInfo[id].fInTried
  {
    var s := NewSlot(e, b, b.mapInfo[id], source);
    var info := b.mapInfo[id];
    if s in b.vvNew && b.vvNew[s] == id then (b, false)
    else if MayTake(b, s, info.nRefCount, nNow) then
      ClearNewKeeps(e, b, s, {id});
      ClearNewSpares(b, s, id);
      (Insert(ClearNew(b, s), id, s), true)
    else if info.nRefCount == 0 then (Delete(b, id), false)
    else (b, false)
  }

  /** Add_ (lines 305-371). */
  ghost function Add(e: Env, b: Book, addr: Address, source: NetAddr, nTimePenalty: int, nNow: int, luck: bool): (Book, bool)
    requires Inv(e, b)
  {
    if !(e.valid(addr.svc.ip) && e.publicRange(addr.svc.ip)) then (b, false)
    else if addr.svc.ip in b.mapAddr then
      assert AddrIndexed(b, addr.svc.ip);
      var id := b.mapAddr[addr.svc.ip];
      assert EntryOk(e, b, id, {});
      var info := Refresh(b.mapInfo[id], addr, nTimePenalty, nNow);
      PutStatsKeeps(e, b, id, info, {});
      var c := Put(b, id, info);
      if !WantsMore(info, addr, luck) then (c, false)
      else
        WidenPending(e, c, {}, {id});
        Place(e, c, id, source, nNow)
    else
      var c := Create(b, FreshInfo(addr, nTimePenalty), source);
      CreateKeeps(e, b, FreshInfo(addr, nTimePenalty), source);
      Place(e, c, b.nIdCount, source, nNow)
  }

  lemma InsertSlotted(e: Env, b: Book, id: int, s: Slot, pending: set<int>)
    requires Slotted(e, b, pending) && id in b.mapInfo && !b.mapInfo[id].fInTried
    requires b.mapInfo[id].nRefCount < NEW_BUCKETS_PER_ADDRESS
    requires 0 <= s.bucket < NEW_BUCKET_COUNT && s !in b.vvNew
    requires s.pos == Position(e, b, true, s.bucket, b.mapInfo[id].addr.svc)
    ensures Slotted(e, Insert(b, id, s), pending - {id})
  {
    var c := Insert(b, id, s);
    SlotsInsert(b.vvNew, s, id);
    assert Settled(e, b, id, pending);
    forall t | t in c.vvTried ensures TriedSlotOk(e, c, t) { assert TriedSlotOk(e, b, t); }
    forall t | t in c.vvNew ensures NewSlotOk(e, c, t) { if t != s { assert NewSlotOk(e, b, t); } }
    forall i | i in c.mapInfo ensures Settled(e, c, i, pending - {id}) { assert Settled(e, b, i, pending); }
  }

  lemma InsertCounted(b: Book, id: int, s: Slot)
    requires Counted(b) && id in b.mapInfo
    ensures Counted(Insert(b, id, s))
  {
    SameCounts(Insert(b, id, s).mapInfo, b.mapInfo);
  }

  lemma InsertKeeps(e: Env, b: Book, id: int, s: Slot, pending: set<int>)
    requires Weak(e, b, pending) && id in b.mapInfo && !b.mapInfo[id].fInTried
    requires b.mapInfo[id].nRefCount < NEW_BUCKETS_PER_ADDRESS
    requires 0 <= s.bucket < NEW_BUCKET_COUNT && s !in b.vvNew
    requires s.pos == Position(e, b, true, s.bucket, b.mapInfo[id].addr.svc)
    ensures Weak(e, Insert(b, id, s), pending - {id})
  {
    var c := Insert(b, id, s);
    PutIndexed(b, id, c.mapInfo[id]);
    assert c == Put(b, id, c.mapInfo[id]).(vvNew := c.vvNew, vvTried := b.vvTried, nTried := b.nTried, nNew := b.nNew);
    InsertCounted(b, id, s);
    TablesAre(e, b, pending);
    InsertSlotted(e, b, id, s, pending);
    TablesAre(e, c, pending - {id});
  }

  lemma PlaceKeeps(e: Env, b: Book, id: int, source: NetAddr, nNow: int)
    requires Weak(e, b, {id}) && id in b.mapInfo && !b.mapInfo[id].fInTried
    requires b.mapInfo[id].nRefCount < NEW_BUCKETS_PER_ADDRESS
    ensures Inv(e, Place(e, b, id, source, nNow).0)
  {
    var s := NewSlot(e, b, b.mapInfo[id], source);
    var info := b.mapInfo[id];
    var none: set<int> := {};
    assert none + {id} == {id};
    assert EntryOk(e, b, id, {id});
    if s in b.vvNew && b.vvNew[s] == id {
      assert s in SlotsOf(b.vvNew, id);
      SettlePending(e, b, id, none);
    } else if MayTake(b, s, info.nRefCount, nNow) {
      ClearNewKeeps(e, b, s, {id});
      ClearNewSpares(b, s, id);
      var c := ClearNew(b, s);
      assert c.mapInfo[id] == info.(nRandomPos := c.mapInfo[id].nRandomPos);
      InsertKeeps(e, c, id, s, {id});
      assert {id} - {id} == none;
    } else if info.nRefCount == 0 {
      DeleteKeeps(e, b, id, {id});
      WidenPending(e, Delete(b, id), {id} - {id}, none);
    } else {
      SettlePending(e, b, id, none);
    }
  }

  lemma AddKeeps(e: Env, b: Book, addr: Address, source: NetAddr, nTimePenalty: int, nNow: int, luck: bool)
    requires Inv(e, b)
    ensures Inv(e, Add(e, b, addr, source, nTimePenalty, nNow, luck).0)
  {
    if e.valid(addr.svc.ip) && e.publicRange(addr.svc.ip) {
      if addr.svc.ip in b.mapAddr {
        assert AddrIndexed(b, addr.svc.ip);
        var id := b.mapAddr[addr.svc.ip];
        assert EntryOk(e, b, id, {});
        var info := Refresh(b.mapInfo[id], addr, nTimePenalty, nNow);
        PutStatsKeeps(e, b, id, info, {});
        if WantsMore(info, addr, luck) {
          WidenPending(e, Put(b, id, info), {}, {id});
          PlaceKeeps(e, Put(b, id, info), id, source, nNow);
        }
      } else {
        CreateKeeps(e, b, FreshInfo(addr, nTimePenalty), source);
        PlaceKeeps(e, Create(b, FreshInfo(addr, nTimePenalty), source), b.nIdCount, source, nNow);
      }
    }
  }

  lemma PlaceContents(e: Env, b: Book, id: int, source: NetAddr, nNow: int)
    requires Weak(e, b, {id}) && id in b.mapInfo && !b.mapInfo[id].fInTried
    ensures var (c, r) := Place(e, b, id, source, nNow);
            var gone := PushedOut(b, NewSlot(e, b, b.mapInfo[id], source));
            && (r ==> id !in gone && c.mapInfo.Keys == b.mapInfo.Keys - gone)
            && (r ==> forall i <- gone :: IsTerrible(b.mapInfo[i], nNow))
            && (!r ==> c.mapInfo.Keys == b.mapInfo.Keys - if b.mapInfo[id].nRefCount == 0 then {id} else {})
            && Carries(c.mapInfo, b.mapInfo)
  {
    var s := NewSlot(e, b, b.mapInfo[id], source);
    var info := b.mapInfo[id];
    assert EntryOk(e, b, id, {id});
    if s in b.vvNew && b.vvNew[s] == id {
      assert s in SlotsOf(b.vvNew, id);
    } else if MayTake(b, s, info.nRefCount, nNow) {
      PlaceTakes(e, b, id, s);
    } else if info.nRefCount == 0 {
      DeleteKeeps(e, b, id, {id});
      var c := Delete(b, id);
      forall i | i in c.mapInfo ensures Carried(c.mapInfo, b.mapInfo, i) {
        assert c.mapInfo[i].nRandomPos == c.mapInfo[i].nRandomPos;
      }
    }
  }

  lemma PlaceTakes(e: Env, b: Book, id: int, s: Slot)
    requires Weak(e, b, {id}) && id in b.mapInfo && (s in b.vvNew ==> b.vvNew[s] in b.mapInfo && b.vvNew[s] != id)
    ensures id in ClearNew(b, s).mapInfo
    ensures var c := Insert(ClearNew(b, s), id, s);
            c.mapInfo.Keys == b.mapInfo.Keys - PushedOut(b, s) && Carries(c.mapInfo, b.mapInfo)
  {
    ClearNewContents(e, b, s, {id});
    ClearNewSpares(b, s, id);
    var d := ClearNew(b, s);
    var c := Insert(d, id, s);
    assert c.mapInfo.Keys == d.mapInfo.Keys;
    forall i | i in c.mapInfo ensures Carried(c.mapInfo, b.mapInfo, i) {
      assert Carried(d.mapInfo, b.mapInfo, i);
    }
  }

  /** What Add_ may do to b, having touched entry id. */
  ghost predicate AddsOnly(b: Book, c: Book, r: bool, id: int, ip: NetAddr, nNow: int) {
    var gone := b.mapInfo.Keys - c.mapInfo.Keys;
    && |gone| <= 1 && id !in gone && (gone != {} ==> r)
    && (forall i <- gone :: IsTerrible(b.mapInfo[i], nNow) && b.mapInfo[i].nRefCount == 1)
    && c.mapInfo.Keys <= b.mapInfo.Keys + {id}
    && (r ==> id in c.mapInfo && ip in c.mapAddr && c.mapAddr[ip] == id)
    && (!r ==> c.mapInfo.Keys == b.mapInfo.Keys)
    && Carries(c.mapInfo - {id}, b.mapInfo)
  }

  lemma AddsOnlyIntro(b: Book, p: Book, c: Book, r: bool, id: int, gone: set<int>, nNow: int)
    requires p.mapInfo.Keys == b.mapInfo.Keys + {id} && Indexed(c) && Carries(c.mapInfo, p.mapInfo)
    requires forall i {:trigger p.mapInfo[i]} :: i in p.mapInfo && i != id ==> i in b.mapInfo && p.mapInfo[i] == b.mapInfo[i]
    requires |gone| <= 1 && gone <= p.mapInfo.Keys
    requires r ==> id !in gone && c.mapInfo.Keys == p.mapInfo.Keys - gone
    requires r ==> forall i <- gone :: IsTerrible(p.mapInfo[i], nNow) && p.mapInfo[i].nRefCount == 1
    requires !r ==> c.mapInfo.Keys == b.mapInfo.Keys
    ensures AddsOnly(b, c, r, id, p.mapInfo[id].Ip(), nNow)
  {
    if r {
      assert IdIndexed(c, id) && Carried(c.mapInfo, p.mapInfo, id);
      assert b.mapInfo.Keys - c.mapInfo.Keys == gone;
    } else {
      assert b.mapInfo.Keys - c.mapInfo.Keys == {};
    }
    forall i | i in c.mapInfo - {id} ensures Carried(c.mapInfo - {id}, b.mapInfo, i) {
      assert Carried(c.mapInfo, p.mapInfo, i);
    }
  }

  lemma PlacedContents(e: Env, b: Book, p: Book, id: int, source: NetAddr, nNow: int)
    requires Weak(e, p, {id}) && p.mapInfo.Keys == b.mapInfo.Keys + {id}
    requires forall i {:trigger p.mapInfo[i]} :: i in p.mapInfo && i != id ==> i in b.mapInfo && p.mapInfo[i] == b.mapInfo[i]
    requires !p.mapInfo[id].fInTried && p.mapInfo[id].nRefCount < NEW_BUCKETS_PER_ADDRESS
    requires p.mapInfo[id].nRefCount == 0 <==> id !in b.mapInfo
    ensures var (c, r) := Place(e, p, id, source, nNow);
            AddsOnly(b, c, r, id, p.mapInfo[id].Ip(), nNow)
  {
    var (c, r) := Place(e, p, id, source, nNow);
    PlaceContents(e, p, id, source, nNow);
    PlaceKeeps(e, p, id, source, nNow);
    assert !r ==> c.mapInfo.Keys == b.mapInfo.Keys;
    AddsOnlyIntro(b, p, c, r, id, PushedOut(p, NewSlot(e, p, p.mapInfo[id], source)), nNow);
  }

  /** Add_ forgets nobody but a terrible entry with a single reference, at most one per call; it reports
      success exactly if a slot was taken, and then the address is known. */
  lemma AddContents(e: Env, b: Book, addr: Address, source: NetAddr, nTimePenalty: int, nNow: int, luck: bool)
    requires Inv(e, b)
    ensures var (c, r) := Add(e, b, addr, source, nTimePenalty, nNow, luck);
            var id := if addr.svc.ip in b.mapAddr then b.mapAddr[addr.svc.ip] else b.nIdCount;
            AddsOnly(b, c, r, id, addr.svc.ip, nNow)
  {
    if e.valid(addr.svc.ip) && e.publicRange(addr.svc.ip) {
      if addr.svc.ip in b.mapAddr {
        AddKnownContents(e, b, addr, source, nTimePenalty, nNow, luck);
      } else {
        CreateKeeps(e, b, FreshInfo(addr, nTimePenalty), source);
        AddFreshContents(e, b, FreshInfo(addr, nTimePenalty), source, nNow);
      }
    } else {
      AddsNothing(b, if addr.svc.ip in b.mapAddr then b.mapAddr[addr.svc.ip] else b.nIdCount, b, addr.svc.ip, nNow);
    }
  }

  lemma AddsNothing(b: Book, id: int, c: Book, ip: NetAddr, nNow: int)
    requires c.mapInfo.Keys == b.mapInfo.Keys
    requires forall i {:trigger c.mapInfo[i]} :: i in c.mapInfo && i != id ==> c.mapInfo[i] == b.mapInfo[i]
    ensures AddsOnly(b, c, false, id, ip, nNow)
  {
    assert b.mapInfo.Keys - c.mapInfo.Keys == {};
  }

  lemma AddKnownContents(e: Env, b: Book, addr: Address, source: NetAddr, nTimePenalty: int, nNow: int, luck: bool)
    requires Inv(e, b) && addr.svc.ip in b.mapAddr && e.valid(addr.svc.ip) && e.publicRange(addr.svc.ip)
    ensures var (c, r) := Add(e, b, addr, source, nTimePenalty, nNow, luck);
            AddsOnly(b, c, r, b.mapAddr[addr.svc.ip], addr.svc.ip, nNow)
  {
    assert AddrIndexed(b, addr.svc.ip);
    var id := b.mapAddr[addr.svc.ip];
    assert EntryOk(e, b, id, {});
    var info := Refresh(b.mapInfo[id], addr, nTimePenalty, nNow);
    PutStatsKeeps(e, b, id, info, {});
    if WantsMore(info, addr, luck) {
      WidenPending(e, Put(b, id, info), {}, {id});
      PlacedContents(e, b, Put(b, id, info), id, source, nNow);
    } else {
      AddsNothing(b, id, Put(b, id, info), addr.svc.ip, nNow);
    }
  }

  lemma AddFreshContents(e: Env, b: Book, addr: Address, source: NetAddr, nNow: int)
    requires Inv(e, b) && addr.svc.ip !in b.mapAddr && e.valid(addr.svc.ip)
    requires Weak(e, Create(b, addr, source), {b.nIdCount})
    ensures var (c, r) := Place(e, Create(b, addr, source), b.nIdCount, source, nNow);
            AddsOnly(b, c, r, b.nIdCount, addr.svc.ip, nNow)
  {
    var p, id := Create(b, addr, source), b.nIdCount;
    assert id !in b.mapInfo by { IdsBelow(b); }
    assert p.mapInfo == b.mapInfo[id := p.mapInfo[id]];
    PlacedContents(e, b, p, id, source, nNow);
  }

  // ----- Attempt, Connected, SetLocal, Clear

  function Attempt(b: Book, svc: Service, nTime: int): Book {
    if !Knows(b, svc) then b
    else
      var info := b.mapInfo[IdOf(b, svc)];
      Put(b, IdOf(b, svc), info.(nLastTry := nTime, nAttempts := info.nAttempts + 1))
  }

  function Connected(b: Book, svc: Service, nTime: int): Book {
    if !Knows(b, svc) then b
    else
      var info := b.mapInfo[IdOf(b, svc)];
      if nTime - info.addr.nTime > 20 * 60
      then Put(b, IdOf(b, svc), info.(addr := info.addr.(nTime := nTime))) else b
  }

  function SetLocal(b: Book, svc: Service): Book {
    if !Knows(b, svc) then b
    else Put(b, IdOf(b, svc), b.mapInfo[IdOf(b, svc)].(fLocal := true))
  }

  /** Clear_ with the random key it draws. */
  function Clear(b: Book, nKey: nat): Book {
    Book(nKey, b.asmap, 0, map[], map[], [], 0, 0, map[], map[])
  }

  lemma StatsKeep(e: Env, b: Book, svc: Service, nTime: int)
    requires Inv(e, b) && 0 <= nTime
    ensures Inv(e, Attempt(b, svc, nTime)) && Inv(e, Connected(b, svc, nTime)) && Inv(e, SetLocal(b, svc))
  {
    if Knows(b, svc) {
      var id := IdOf(b, svc);
      var info := b.mapInfo[id];
      assert EntryOk(e, b, id, {});
      PutStatsKeeps(e, b, id, info.(nLastTry := nTime, nAttempts := info.nAttempts + 1), {});
      PutStatsKeeps(e, b, id, info.(addr := info.addr.(nTime := nTime)), {});
      PutStatsKeeps(e, b, id, info.(fLocal := true), {});
    }
  }

  lemma ClearKeeps(e: Env, b: Book, nKey: nat)
    ensures Inv(e, Clear(b, nKey))
  {
    var c := Clear(b, nKey);
    assert TriedIds(c.mapInfo) == {} && NewIds(c.mapInfo) == {};
  }

  // ----- whole runs

  datatype Op =
    | DoAdd(addr: Address, source: NetAddr, nTimePenalty: int, nNow: int, luck: bool)
    | DoGood(svc: Service, nTime: int)
    | DoAttempt(svc: Service, nTime: int)
    | DoConnected(svc: Service, nTime: int)
    | DoSetLocal(svc: Service)
    | DoSwap(p: nat, q: nat)          // one step of GetAddr_'s shuffle
    | DoClear(nKey: nat)

  /** Times are clock readings: never negative, and positive where a success is recorded. */
  predicate Timely(op: Op) {
    match op
    case DoGood(_, t) => 0 < t
    case DoAttempt(_, t) => 0 <= t
    case DoConnected(_, t) => 0 <= t
    case _ => true
  }

  ghost function Step(e: Env, b: Book, op: Op): Book
    requires Inv(e, b) && Timely(op)
  {
    match op
    case DoAdd(addr, source, penalty, now, luck) => Add(e, b, addr, source, penalty, now, luck).0
    case DoGood(svc, t) => Good(e, b, svc, t)
    case DoAttempt(svc, t) => Attempt(b, svc, t)
    case DoConnected(svc, t) => Connected(b, svc, t)
    case DoSetLocal(svc) => SetLocal(b, svc)
    case DoSwap(p, q) =>
      if p < |b.vRandom| && q < |b.vRandom| then
        assert PosIndexed(b, p) && PosIndexed(b, q);
        SwapRandom(b, p, q)
      else b
    case DoClear(nKey) => Clear(b, nKey)
  }

  lemma StepKeeps(e: Env, b: Book, op: Op)
    requires Inv(e, b) && Timely(op)
    ensures Inv(e, Step(e, b, op))
  {
    match op
    case DoAdd(addr, source, penalty, now, luck) => AddKeeps(e, b, addr, source, penalty, now, luck);
    case DoGood(svc, t) => GoodKeeps(e, b, svc, t);
    case DoAttempt(svc, t) => StatsKeep(e, b, svc, t);
    case DoConnected(svc, t) => StatsKeep(e, b, svc, t);
    case DoSetLocal(svc) => StatsKeep(e, b, svc, 0);
    case DoSwap(p, q) => if p < |b.vRandom| && q < |b.vRandom| { SwapKeeps(e, b, p, q, {}); }
    case DoClear(nKey) => ClearKeeps(e, b, nKey);
  }

  /** The states a run of operations passes through, the first included. */
  ghost predicate IsRun(e: Env, books: seq<Book>, ops: seq<Op>) {
    && |books| == |ops| + 1
    && forall i :: 0 <= i < |ops| ==> Timely(ops[i]) && (Inv(e, books[i]) ==> books[i + 1] == Step(e, books[i], ops[i]))
  }

  /** Main result: Check_ succeeds after every step of every run from a cleared manager. */
  lemma {:induction false} RunKeeps(e: Env, books: seq<Book>, ops: seq<Op>, k: nat)
    requires IsRun(e, books, ops) && k < |books|
    requires books[0] == Clear(books[0], books[0].nKey)
    ensures Inv(e, books[k])
  {
    if k == 0 {
      ClearKeeps(e, books[0], books[0].nKey);
    } else {
      RunKeeps(e, books, ops, k - 1);
      StepKeeps(e, books[k - 1], ops[k - 1]);
      assert Timely(ops[k - 1]);
    }
  }
}
