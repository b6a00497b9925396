/** Saving and loading the address manager (`Serialize` and `Unserialize` of src/addrman.h).

  A `Disk` is the stream in structured form: the counts it starts with are the lengths of its lists.
 */
module AddrDisk {
  import opened AddrBook

  const FILE_FORMAT := 3            // V3_BIP155
  const V2_ASMAP := 2
  const INCOMPATIBILITY_BASE := 32

  /** What the serialization of a CAddrInfo holds. */
  datatype Entry = Entry(addr: Address, source: NetAddr, nLastSuccess: int, nAttempts: int)

  datatype Disk = Disk(
    format: nat,
    compat: nat,
    nKey: nat,
    newEntries: seq<Entry>,
    triedEntries: seq<Entry>,
    buckets: seq<seq<int>>,        // per new bucket, the indices into newEntries
    asmapChecksum: nat)

  function EntryOf(info: Info): Entry { Entry(info.addr, info.source, info.nLastSuccess, info.nAttempts) }

  /** An unserialized CAddrInfo; the memory-only fields are those of the constructor. */
  function InfoOf(x: Entry): Info {
    NewInfo(x.addr, x.source).(nLastSuccess := x.nLastSuccess, nAttempts := x.nAttempts)
  }

  /** SerializeHash(m_asmap), or null for none. */
  function Checksum(hash: seq<bool> -> nat, asmap: seq<bool>): nat {
    if asmap == [] then 0 else hash(asmap)
  }

  // ----- loading

  /** Lines 495-501: entry number |vRandom| of the new table. */
  function LoadNew(b: Book, x: Entry): Book {
    var id := |b.vRandom|;
    b.(mapInfo := b.mapInfo[id := InfoOf(x).(nRandomPos := id)],
       mapAddr := b.mapAddr[x.addr.svc.ip := id],
       vRandom := b.vRandom + [id],
       nNew := b.nNew + 1,
       nIdCount := id + 1)
  }

  function LoadNews(b: Book, xs: seq<Entry>): Book {
    if xs == [] then b else LoadNew(LoadNews(b, xs[..|xs| - 1]), xs[|xs| - 1])
  }

  /** Lines 506-522: a tried entry that is invalid or finds its slot taken is lost. */
  function LoadTried(e: Env, b: Book, x: Entry): Book {
    var id := b.nIdCount;
    var info := InfoOf(x);
    var s := TriedSlot(e, b, info);
    if !e.valid(info.Ip()) || s in b.vvTried then b
    else
      b.(mapInfo := b.mapInfo[id := info.(nRandomPos := |b.vRandom|, fInTried := true)],
         mapAddr := b.mapAddr[info.Ip() := id],
         vRandom := b.vRandom + [id],
         vvTried := b.vvTried[s := id],
         nTried := b.nTried + 1,
         nIdCount := id + 1)
  }

  function LoadTrieds(e: Env, b: Book, xs: seq<Entry>): Book {
    if xs == [] then b else LoadTried(e, LoadTrieds(e, b, xs[..|xs| - 1]), xs[|xs| - 1])
  }

  datatype Ref = Ref(bucket: int, index: int)

  /** Lines 530-540: the references in reading order, out-of-range indices dropped. */
  function BucketRefs(bucket: int, indices: seq<int>, nNew: int): seq<Ref> {
    if indices == [] then []
    else
      var n := |indices| - 1;
      var rest := BucketRefs(bucket, indices[..n], nNew);
      if 0 <= indices[n] < nNew then rest + [Ref(bucket, indices[n])] else rest
  }

  function AllRefs(buckets: seq<seq<int>>, nNew: int): seq<Ref> {
    if buckets == [] then []
    else AllRefs(buckets[..|buckets| - 1], nNew) + BucketRefs(|buckets| - 1, buckets[|buckets| - 1], nNew)
  }

  /** Lines 560-593: put the entry where the reference says if that may be kept and is free, else where its
      own source says if that is free. */
  function LoadRef(e: Env, b: Book, r: Ref, restore: bool): Book {
    if r.index !in b.mapInfo then b
    else
      var info := b.mapInfo[r.index];
      if !e.valid(info.Ip()) || info.nRefCount >= NEW_BUCKETS_PER_ADDRESS then b
      else
        var s := Slot(r.bucket, Position(e, b, true, r.bucket, info.addr.svc));
        if restore && s !in b.vvNew then Insert(b, r.index, s)
        else
          var own := NewSlot(e, b, info, info.source);
          if own !in b.vvNew then Insert(b, r.index, own) else b
  }

  function LoadRefs(e: Env, b: Book, rs: seq<Ref>, restore: bool): Book {
    if rs == [] then b else LoadRef(e, LoadRefs(e, b, rs[..|rs| - 1], restore), rs[|rs| - 1], restore)
  }

  /** An entry of the new table that no slot refers to. */
  predicate Dangling(b: Book, id: int) {
    id in b.mapInfo && !b.mapInfo[id].fInTried && b.mapInfo[id].nRefCount == 0
  }

  /** Lines 597-605, the ids taken in the given order: new entries left without a slot go. */
  ghost function Prune(b: Book, ids: seq<int>): (c: Book)
    requires Placed(b)
    ensures Placed(c)
  {
    if ids == [] then b
    else
      var c := Prune(b, ids[..|ids| - 1]);
      var id := ids[|ids| - 1];
      if Dangling(c, id) then
        DeletePlaced(c, id);
        Delete(c, id)
      else c
  }

  // ----- the invariant while loading

  /** Everything but the address index, and whatever the entries say of themselves. */
  ghost predicate Loading(e: Env, b: Book, pending: set<int>) {
    Placed(b) && Counted(b) && Slotted(e, b, pending)
  }

  lemma WidenSlotted(e: Env, b: Book, p: set<int>, q: set<int>)
    requires Slotted(e, b, p) && p <= q
    ensures Slotted(e, b, q)
  {
    forall i | i in b.mapInfo ensures Settled(e, b, i, q) { assert Settled(e, b, i, p); }
  }

  lemma LoadNewKeeps(e: Env, b: Book, x: Entry, pending: set<int>)
    requires Loading(e, b, pending) && b.nIdCount == |b.vRandom|
    ensures Loading(e, LoadNew(b, x), pending + {b.nIdCount}) && b.nIdCount !in b.mapInfo
  {
    LoadNewPlaced(b, x);
    LoadNewCounted(b, x);
    LoadNewSlotted(e, b, x, pending);
  }

  lemma LoadNewCounted(b: Book, x: Entry)
    requires Counted(b) && |b.vRandom| !in b.mapInfo
    ensures Counted(LoadNew(b, x))
  {
    NewIdAdded(b.mapInfo, |b.vRandom|, InfoOf(x).(nRandomPos := |b.vRandom|));
  }

  lemma NewIdAdded(m: map<int, Info>, id: int, info: Info)
    requires id !in m && !info.fInTried
    ensures TriedIds(m[id := info]) == TriedIds(m) && |NewIds(m[id := info])| == |NewIds(m)| + 1
  {
    CardinalityAdd(NewIds(m), NewIds(m[id := info]), id);
  }

  lemma LoadNewPlaced(b: Book, x: Entry)
    requires Placed(b) && b.nIdCount == |b.vRandom|
    ensures b.nIdCount !in b.mapInfo && Placed(LoadNew(b, x))
  {
    var c, id := LoadNew(b, x), b.nIdCount;
    assert id !in b.mapInfo by { IdsBelow(b); }
    forall i | i in c.mapInfo ensures IdPlaced(c, i) { if i in b.mapInfo { assert IdPlaced(b, i); } }
    forall i | 0 <= i < |c.vRandom| ensures PosIndexed(c, i) { if i < |b.vRandom| { assert PosIndexed(b, i); } }
  }

  lemma LoadNewSlotted(e: Env, b: Book, x: Entry, pending: set<int>)
    requires Slotted(e, b, pending) && |b.vRandom| !in b.mapInfo
    ensures Slotted(e, LoadNew(b, x), pending + {|b.vRandom|})
  {
    var c, id := LoadNew(b, x), |b.vRandom|;
    forall s | s in c.vvTried ensures TriedSlotOk(e, c, s) { assert TriedSlotOk(e, b, s); }
    forall s | s in c.vvNew ensures NewSlotOk(e, c, s) { assert NewSlotOk(e, b, s); }
    forall i | i in c.mapInfo ensures Settled(e, c, i, pending + {id}) {
      if i == id {
        assert SlotsOf(c.vvNew, id) == {} by {
          forall s | s in c.vvNew ensures c.vvNew[s] != id { assert NewSlotOk(e, b, s); }
        }
      } else {
        assert Settled(e, b, i, pending);
      }
    }
  }

  lemma LoadTriedSlotted(e: Env, b: Book, x: Entry, pending: set<int>)
    requires Slotted(e, b, pending) && b.nIdCount !in b.mapInfo
    ensures Slotted(e, LoadTried(e, b, x), pending)
  {
    var c, id := LoadTried(e, b, x), b.nIdCount;
    var s := TriedSlot(e, b, InfoOf(x));
    if c != b {
      forall t | t in c.vvTried ensures TriedSlotOk(e, c, t) { if t != s { assert TriedSlotOk(e, b, t); } }
      forall t | t in c.vvNew ensures NewSlotOk(e, c, t) { assert NewSlotOk(e, b, t); }
      forall i | i in c.mapInfo ensures Settled(e, c, i, pending) {
        if i != id { assert Settled(e, b, i, pending); }
      }
    }
  }

  lemma TriedIdAdded(m: map<int, Info>, id: int, info: Info)
    requires id !in m && info.fInTried
    ensures NewIds(m[id := info]) == NewIds(m) && |TriedIds(m[id := info])| == |TriedIds(m)| + 1
  {
    CardinalityAdd(TriedIds(m), TriedIds(m[id := info]), id);
  }

  lemma LoadTriedKeeps(e: Env, b: Book, x: Entry, pending: set<int>)
    requires Loading(e, b, pending)
    ensures Loading(e, LoadTried(e, b, x), pending)
  {
    var c, id := LoadTried(e, b, x), b.nIdCount;
    assert id !in b.mapInfo by { IdsBelow(b); }
    LoadTriedSlotted(e, b, x, pending);
    if c != b {
      forall i | i in c.mapInfo ensures IdPlaced(c, i) { if i in b.mapInfo { assert IdPlaced(b, i); } }
      forall i | 0 <= i < |c.vRandom| ensures PosIndexed(c, i) { if i < |b.vRandom| { assert PosIndexed(b, i); } }
      TriedIdAdded(b.mapInfo, id, c.mapInfo[id]);
    }
  }

  lemma InsertLoading(e: Env, b: Book, id: int, s: Slot, pending: set<int>)
    requires Loading(e, b, pending) && id in b.mapInfo && !b.mapInfo[id].fInTried
    requires b.mapInfo[id].nRefCount < NEW_BUCKETS_PER_ADDRESS
    requires 0 <= s.bucket < NEW_BUCKET_COUNT && s !in b.vvNew
    requires s.pos == Position(e, b, true, s.bucket, b.mapInfo[id].addr.svc)
    ensures Loading(e, Insert(b, id, s), pending)
  {
    var c := Insert(b, id, s);
    forall i | i in c.mapInfo ensures IdPlaced(c, i) { assert IdPlaced(b, i); }
    forall i | 0 <= i < |c.vRandom| ensures PosIndexed(c, i) { assert PosIndexed(b, i); }
    InsertCounted(b, id, s);
    InsertSlotted(e, b, id, s, pending);
    WidenSlotted(e, c, pending - {id}, pending);
  }

  lemma LoadRefKeeps(e: Env, b: Book, r: Ref, restore: bool, pending: set<int>)
    requires Loading(e, b, pending) && (restore ==> 0 <= r.bucket < NEW_BUCKET_COUNT)
    requires r.index in b.mapInfo ==> !b.mapInfo[r.index].fInTried
    ensures Loading(e, LoadRef(e, b, r, restore), pending)
  {
    if r.index in b.mapInfo {
      var info := b.mapInfo[r.index];
      if e.valid(info.Ip()) && info.nRefCount < NEW_BUCKETS_PER_ADDRESS {
        var s := Slot(r.bucket, Position(e, b, true, r.bucket, info.addr.svc));
        var own := NewSlot(e, b, info, info.source);
        if restore && s !in b.vvNew {
          InsertLoading(e, b, r.index, s, pending);
        } else if own !in b.vvNew {
          InsertLoading(e, b, r.index, own, pending);
        }
      }
    }
  }

  // ----- the whole of Unserialize

  function Below(n: int): (r: set<int>)
    ensures forall i :: i in r <==> 0 <= i < n
  {
    if n <= 0 then {} else Below(n - 1) + {n - 1}
  }

  function Counting(n: int): (r: seq<int>)
    ensures (n < 0 ==> r == []) && (0 <= n ==> |r| == n && forall i :: 0 <= i < n ==> r[i] == i)
  {
    if n < 0 then [] else seq(n, i => i)
  }

  function Restores(hash: seq<bool> -> nat, asmap: seq<bool>, d: Disk): bool {
    |d.buckets| == NEW_BUCKET_COUNT &&
    (if d.format >= V2_ASMAP then d.asmapChecksum else 0) == Checksum(hash, asmap)
  }

  /** Lines 467-492: the streams that are not rejected outright. */
  predicate Accepted(d: Disk) {
    && (d.compat - INCOMPATIBILITY_BASE) % 256 <= FILE_FORMAT
    && |d.newEntries| <= NEW_BUCKET_COUNT * BUCKET_SIZE
    && |d.triedEntries| <= TRIED_BUCKET_COUNT * BUCKET_SIZE
  }

  function Entries(e: Env, b: Book, d: Disk): Book {
    LoadTrieds(e, LoadNews(Clear(b, d.nKey), d.newEntries), d.triedEntries)
  }

  function Filled(e: Env, hash: seq<bool> -> nat, b: Book, d: Disk): Book {
    LoadRefs(e, Entries(e, b, d), AllRefs(d.buckets, |d.newEntries|), Restores(hash, b.asmap, d))
  }

  /** Unserialize into a cleared manager that has b's AS map. */
  ghost function Load(e: Env, hash: seq<bool> -> nat, b: Book, d: Disk): Book {
    var c := Filled(e, hash, b, d);
    FilledOk(e, hash, b, d);
    Prune(c, Counting(c.nIdCount))
  }

  /** The state after the first new entries have been read. */
  ghost predicate NewsLoaded(e: Env, c: Book, b: Book, nKey: nat, xs: seq<Entry>) {
    && Loading(e, c, Below(|xs|))
    && c.nIdCount == |c.vRandom| == |xs| && c.nKey == nKey && c.asmap == b.asmap
    && c.vvNew == map[] && c.vvTried == map[]
    && InfosFrom(c.mapInfo, xs)
  }

  ghost predicate InfosFrom(m: map<int, Info>, xs: seq<Entry>) {
    && m.Keys == Below(|xs|)
    && forall i :: 0 <= i < |xs| ==> m[i] == InfoOf(xs[i]).(nRandomPos := i)
  }

  lemma InfosFromMore(m: map<int, Info>, xs: seq<Entry>)
    requires xs != [] && InfosFrom(m, xs[..|xs| - 1])
    ensures InfosFrom(m[|xs| - 1 := InfoOf(xs[|xs| - 1]).(nRandomPos := |xs| - 1)], xs)
  {
    var n := |xs| - 1;
    assert Below(n) + {n} == Below(n + 1);
    forall i | 0 <= i < n ensures m[i] == InfoOf(xs[i]).(nRandomPos := i) { assert xs[..n][i] == xs[i]; }
  }

  lemma {:induction false} LoadNewsOk(e: Env, b: Book, nKey: nat, xs: seq<Entry>)
    ensures NewsLoaded(e, LoadNews(Clear(b, nKey), xs), b, nKey, xs)
  {
    if xs == [] {
      ClearKeeps(e, b, nKey);
      assert Below(0) == {};
    } else {
      LoadNewsOk(e, b, nKey, xs[..|xs| - 1]);
      LoadNewsStep(e, b, LoadNews(Clear(b, nKey), xs[..|xs| - 1]), nKey, xs);
    }
  }

  lemma LoadNewsStep(e: Env, b: Book, c: Book, nKey: nat, xs: seq<Entry>)
    requires xs != [] && NewsLoaded(e, c, b, nKey, xs[..|xs| - 1])
    ensures NewsLoaded(e, LoadNew(c, xs[|xs| - 1]), b, nKey, xs)
  {
    var n := |xs| - 1;
    assert Loading(e, LoadNew(c, xs[n]), Below(n + 1)) by {
      LoadNewKeeps(e, c, xs[n], Below(n));
      assert Below(n) + {n} == Below(n + 1);
    }
    InfosFromMore(c.mapInfo, xs);
  }

  ghost predicate SameAt(d: Book, c: Book, i: int) {
    i in d.mapInfo && i in c.mapInfo && d.mapInfo[i] == c.mapInfo[i]
  }

  /** The state after some tried entries have been read on top of c. */
  ghost predicate TriedLoaded(e: Env, d: Book, c: Book, nNew: nat) {
    && Loading(e, d, Below(nNew))
    && d.nKey == c.nKey && d.asmap == c.asmap && d.vvNew == c.vvNew && nNew <= d.nIdCount
    && (forall i :: 0 <= i < nNew ==> SameAt(d, c, i))
    && (forall i <- d.mapInfo :: nNew <= i ==> d.mapInfo[i].fInTried && e.valid(d.mapInfo[i].Ip()))
  }

  lemma {:induction false} LoadTriedsOk(e: Env, c: Book, nNew: nat, xs: seq<Entry>)
    requires Loading(e, c, Below(nNew)) && c.mapInfo.Keys == Below(nNew) && c.nIdCount == nNew
    ensures TriedLoaded(e, LoadTrieds(e, c, xs), c, nNew)
  {
    if xs != [] {
      var n := |xs| - 1;
      LoadTriedsOk(e, c, nNew, xs[..n]);
      LoadTriedsStep(e, LoadTrieds(e, c, xs[..n]), c, nNew, xs[n]);
    }
  }

  lemma LoadTriedsStep(e: Env, d: Book, c: Book, nNew: nat, x: Entry)
    requires TriedLoaded(e, d, c, nNew)
    ensures TriedLoaded(e, LoadTried(e, d, x), c, nNew)
  {
    LoadTriedKeeps(e, d, x, Below(nNew));
    var f := LoadTried(e, d, x);
    forall i | 0 <= i < nNew ensures SameAt(f, c, i) { assert SameAt(d, c, i); }
  }

  lemma EntriesOk(e: Env, b: Book, d: Disk)
    ensures NewsLoaded(e, LoadNews(Clear(b, d.nKey), d.newEntries), b, d.nKey, d.newEntries)
    ensures TriedLoaded(e, Entries(e, b, d), LoadNews(Clear(b, d.nKey), d.newEntries), |d.newEntries|)
  {
    LoadNewsOk(e, b, d.nKey, d.newEntries);
    LoadTriedsOk(e, LoadNews(Clear(b, d.nKey), d.newEntries), |d.newEntries|, d.triedEntries);
  }

  /** Reading references moves no entry between tables, and gives slots to valid entries only. */
  ghost predicate RefsLoaded(e: Env, c: Book, d: Book, nNew: nat) {
    && Loading(e, c, Below(nNew)) && c.mapInfo.Keys == d.mapInfo.Keys && c.nIdCount == d.nIdCount
    && forall i <- c.mapInfo ::
         && (c.mapInfo[i].fInTried <==> nNew <= i)
         && (c.mapInfo[i].fInTried || c.mapInfo[i].nRefCount != 0 ==> e.valid(c.mapInfo[i].Ip()))
  }

  lemma {:induction false} LoadRefsOk(e: Env, d: Book, nNew: nat, rs: seq<Ref>, restore: bool)
    requires RefsLoaded(e, d, d, nNew)
    requires forall r <- rs :: 0 <= r.index < nNew && (restore ==> 0 <= r.bucket < NEW_BUCKET_COUNT)
    ensures RefsLoaded(e, LoadRefs(e, d, rs, restore), d, nNew)
  {
    if rs != [] {
      var n := |rs| - 1;
      LoadRefsOk(e, d, nNew, rs[..n], restore);
      assert rs[n] in rs;
      LoadRefsStep(e, LoadRefs(e, d, rs[..n], restore), d, nNew, rs[n], restore);
    }
  }

  lemma LoadRefsStep(e: Env, c: Book, d: Book, nNew: nat, r: Ref, restore: bool)
    requires RefsLoaded(e, c, d, nNew) && 0 <= r.index < nNew && (restore ==> 0 <= r.bucket < NEW_BUCKET_COUNT)
    ensures RefsLoaded(e, LoadRef(e, c, r, restore), d, nNew)
  {
    LoadRefKeeps(e, c, r, restore, Below(nNew));
    var f := LoadRef(e, c, r, restore);
    assert f == c || exists s :: f == Insert(c, r.index, s);
    assert f.mapInfo.Keys == c.mapInfo.Keys;
    forall i | i in f.mapInfo
      ensures f.mapInfo[i].fInTried <==> nNew <= i
      ensures f.mapInfo[i].fInTried || f.mapInfo[i].nRefCount != 0 ==> e.valid(f.mapInfo[i].Ip())
    {
      assert i in c.mapInfo && f.mapInfo[i] == c.mapInfo[i].(nRefCount := f.mapInfo[i].nRefCount);
    }
  }

  lemma {:induction false} BucketRefsInRange(bucket: int, indices: seq<int>, nNew: int)
    ensures forall r <- BucketRefs(bucket, indices, nNew) :: 0 <= r.index < nNew && r.bucket == bucket
  {
    if indices != [] { BucketRefsInRange(bucket, indices[..|indices| - 1], nNew); }
  }

  lemma {:induction false} AllRefsInRange(buckets: seq<seq<int>>, nNew: int)
    ensures forall r <- AllRefs(buckets, nNew) :: 0 <= r.index < nNew && 0 <= r.bucket < |buckets|
  {
    if buckets != [] {
      AllRefsInRange(buckets[..|buckets| - 1], nNew);
      BucketRefsInRange(|buckets| - 1, buckets[|buckets| - 1], nNew);
    }
  }

  /** The entries as read, before any has a slot. */
  lemma EntriesReady(e: Env, b: Book, d: Disk)
    ensures var c := Entries(e, b, d);
            RefsLoaded(e, c, c, |d.newEntries|) && forall i :: 0 <= i < |d.newEntries| ==> i in c.mapInfo
  {
    EntriesOk(e, b, d);
    var c, n := Entries(e, b, d), |d.newEntries|;
    forall i | 0 <= i < n ensures i in c.mapInfo {
      assert SameAt(c, LoadNews(Clear(b, d.nKey), d.newEntries), i);
    }
    forall i | i in c.mapInfo
      ensures c.mapInfo[i].fInTried <==> n <= i
      ensures c.mapInfo[i].fInTried || c.mapInfo[i].nRefCount != 0 ==> e.valid(c.mapInfo[i].Ip())
    {
      assert IdPlaced(c, i);
      if i < n { assert SameAt(c, LoadNews(Clear(b, d.nKey), d.newEntries), i); }
    }
  }

  lemma FilledOk(e: Env, hash: seq<bool> -> nat, b: Book, d: Disk)
    ensures RefsLoaded(e, Filled(e, hash, b, d), Entries(e, b, d), |d.newEntries|)
  {
    EntriesReady(e, b, d);
    AllRefsInRange(d.buckets, |d.newEntries|);
    LoadRefsOk(e, Entries(e, b, d), |d.newEntries|, AllRefs(d.buckets, |d.newEntries|), Restores(hash, b.asmap, d));
  }

  // ----- pruning

  /** Pruning leaves the other entries alone. */
  lemma {:induction false} PruneOk(e: Env, b: Book, ids: seq<int>, pending: set<int>)
    requires Loading(e, b, pending)
    ensures Loading(e, Prune(b, ids), pending - set i | i in ids)
    ensures var c := Prune(b, ids);
            && (forall i <- c.mapInfo :: i in b.mapInfo && c.mapInfo[i] == b.mapInfo[i].(nRandomPos := c.mapInfo[i].nRandomPos))
            && (forall i <- b.mapInfo :: Survives(b, i) ==> i in c.mapInfo)
            && c.vvNew == b.vvNew && c.vvTried == b.vvTried && c.nKey == b.nKey && c.asmap == b.asmap
  {
    if ids == [] {
      assert pending - (set i | i in ids) == pending;
    } else {
      var rest, id := ids[..|ids| - 1], ids[|ids| - 1];
      PruneOk(e, b, rest, pending);
      var c, p := Prune(b, rest), pending - set i | i in rest;
      assert pending - (set i | i in ids) == p - {id};
      if Dangling(c, id) {
        DeletePlaced(c, id);
        DeleteCounted(c, id);
        DeleteSlotted(e, c, id, p);
      } else {
        DropPending(e, c, id, p);
      }
    }
  }

  lemma DropPending(e: Env, b: Book, id: int, pending: set<int>)
    requires Slotted(e, b, pending) && !Dangling(b, id)
    ensures Slotted(e, b, pending - {id})
  {
    forall i | i in b.mapInfo ensures Settled(e, b, i, pending - {id}) { assert Settled(e, b, i, pending); }
  }

  /** What pruning spares: a tried entry, or one that some slot refers to. */
  predicate Survives(b: Book, id: int) {
    id in b.mapInfo && (b.mapInfo[id].fInTried || b.mapInfo[id].nRefCount != 0)
  }

  ghost predicate Forgotten(b: Book, c: Book, a: NetAddr) {
    exists i :: i in b.mapInfo && i !in c.mapInfo && b.mapInfo[i].Ip() == a
  }

  /** With an entry its address goes, whoever else has it. */
  ghost predicate AddrsPruned(b: Book, c: Book) {
    && (forall a :: a in c.mapAddr <==> a in b.mapAddr && !Forgotten(b, c, a))
    && (forall a :: a in c.mapAddr ==> c.mapAddr[a] == b.mapAddr[a])
  }

  lemma {:induction false} PruneAddrs(b: Book, ids: seq<int>)
    requires Placed(b)
    ensures AddrsPruned(b, Prune(b, ids))
    ensures var c := Prune(b, ids); c.mapInfo.Keys <= b.mapInfo.Keys &&
                                    forall i <- c.mapInfo :: c.mapInfo[i].Ip() == b.mapInfo[i].Ip()
  {
    if ids != [] {
      var rest, id := ids[..|ids| - 1], ids[|ids| - 1];
      PruneAddrs(b, rest);
      var c, d := Prune(b, rest), Prune(b, ids);
      if Dangling(c, id) {
        DeletePlaced(c, id);
        forall a ensures Forgotten(b, d, a) <==> Forgotten(b, c, a) || a == b.mapInfo[id].Ip() {
          if i :| i in b.mapInfo && i !in c.mapInfo && b.mapInfo[i].Ip() == a { assert i !in d.mapInfo; }
          if a == b.mapInfo[id].Ip() { assert id in b.mapInfo && id !in d.mapInfo; }
        }
      }
    }
  }

  /** Loading ends with the survivors, all of them settled. */
  lemma LoadedIs(e: Env, hash: seq<bool> -> nat, b: Book, d: Disk)
    ensures var f, l := Filled(e, hash, b, d), Load(e, hash, b, d);
            && Loading(e, l, {}) && AddrsPruned(f, l)
            && (forall i :: i in l.mapInfo <==> Survives(f, i))
            && (forall i <- l.mapInfo :: l.mapInfo[i] == f.mapInfo[i].(nRandomPos := l.mapInfo[i].nRandomPos))
  {
    FilledOk(e, hash, b, d);
    EntriesOk(e, b, d);
    var f, n := Filled(e, hash, b, d), |d.newEntries|;
    var ids := Counting(f.nIdCount);
    var l := Prune(f, ids);
    PruneOk(e, f, ids, Below(n));
    PruneAddrs(f, ids);
    assert Below(n) - (set i | i in ids) == {} by {
      forall i | i in Below(n) ensures i in ids { assert ids[i] == i; }
    }
    forall i | i in l.mapInfo ensures Survives(f, i) { assert Settled(e, l, i, {}); }
  }

  // ----- which streams leave a consistent manager

  /** The tried entries of a stream that are read in: valid ones whose slot no earlier one has taken. */
  function KeptTrieds(e: Env, b: Book, xs: seq<Entry>): seq<Entry> {
    if xs == [] then []
    else
      var kept, x := KeptTrieds(e, b, xs[..|xs| - 1]), xs[|xs| - 1];
      if e.valid(x.addr.svc.ip) && SlotFree(e, b, kept, x) then kept + [x] else kept
  }

  predicate SlotFree(e: Env, b: Book, kept: seq<Entry>, x: Entry) {
    forall y <- kept :: TriedSlot(e, b, InfoOf(y)) != TriedSlot(e, b, InfoOf(x))
  }

  /** All entries read in, in the order of their ids. */
  function Kept(e: Env, b: Book, d: Disk): seq<Entry> {
    d.newEntries + KeptTrieds(e, Clear(b, d.nKey), d.triedEntries)
  }

  ghost predicate Apart(xs: seq<Entry>) {
    forall i, j :: 0 <= i < j < |xs| ==> xs[i].addr.svc.ip != xs[j].addr.svc.ip
  }

  ghost predicate ReadAt(b: Book, xs: seq<Entry>, i: int)
    requires 0 <= i < |xs| == |b.vRandom|
  {
    var a := xs[i].addr.svc.ip;
    && i in b.mapInfo && b.mapInfo[i].(nRefCount := 0, fInTried := false) == InfoOf(xs[i]).(nRandomPos := i)
    && b.vRandom[i] == i && a in b.mapAddr && i <= b.mapAddr[a]
  }

  ghost predicate LastAt(b: Book, xs: seq<Entry>, a: NetAddr)
    requires a in b.mapAddr
  {
    0 <= b.mapAddr[a] < |xs| && xs[b.mapAddr[a]].addr.svc.ip == a
  }

  /** The three indexes after xs was read: an address leads to the last of its entries. */
  ghost predicate ReadIn(b: Book, xs: seq<Entry>) {
    && b.nIdCount == |b.vRandom| == |xs|
    && (forall i <- b.mapInfo :: 0 <= i < |xs|)
    && (forall i {:trigger ReadAt(b, xs, i)} :: 0 <= i < |xs| ==> ReadAt(b, xs, i))
    && (forall a {:trigger LastAt(b, xs, a)} :: a in b.mapAddr ==> LastAt(b, xs, a))
  }

  lemma ReadInMore(b: Book, c: Book, xs: seq<Entry>, x: Entry)
    requires ReadIn(b, xs)
    requires c.nIdCount == |xs| + 1 && c.vRandom == b.vRandom + [|xs|]
    requires c.mapAddr == b.mapAddr[x.addr.svc.ip := |xs|]
    requires |xs| in c.mapInfo && c.mapInfo == b.mapInfo[|xs| := c.mapInfo[|xs|]]
    requires c.mapInfo[|xs|].(nRefCount := 0, fInTried := false) == InfoOf(x).(nRandomPos := |xs|)
    ensures ReadIn(c, xs + [x])
  {
    forall i | 0 <= i < |xs| + 1 ensures ReadAt(c, xs + [x], i) { if i < |xs| { assert ReadAt(b, xs, i); } }
    forall a | a in c.mapAddr ensures LastAt(c, xs + [x], a) {
      if a != x.addr.svc.ip { assert LastAt(b, xs, a); }
    }
  }

  lemma {:induction false} NewsReadIn(b: Book, key: nat, xs: seq<Entry>)
    ensures ReadIn(LoadNews(Clear(b, key), xs), xs)
    ensures var c := LoadNews(Clear(b, key), xs); c.vvTried == map[] && c.nKey == key && c.asmap == b.asmap
  {
    if xs != [] {
      var n := |xs| - 1;
      NewsReadIn(b, key, xs[..n]);
      ReadInMore(LoadNews(Clear(b, key), xs[..n]), LoadNews(Clear(b, key), xs), xs[..n], xs[n]);
      assert xs[..n] + [xs[n]] == xs;
    }
  }

  /** The tried slots taken are those of the entries kept. */
  ghost predicate SlotsTaken(e: Env, b: Book, kept: seq<Entry>) {
    forall s :: s in b.vvTried <==> exists y :: y in kept && TriedSlot(e, b, InfoOf(y)) == s
  }

  lemma {:induction false} TriedsReadIn(e: Env, b: Book, news: seq<Entry>, xs: seq<Entry>)
    requires ReadIn(b, news) && b.vvTried == map[]
    ensures ReadIn(LoadTrieds(e, b, xs), news + KeptTrieds(e, b, xs))
    ensures SlotsTaken(e, LoadTrieds(e, b, xs), KeptTrieds(e, b, xs))
    ensures LoadTrieds(e, b, xs).nKey == b.nKey && LoadTrieds(e, b, xs).asmap == b.asmap
  {
    if xs == [] {
      assert news + [] == news;
    } else {
      var n := |xs| - 1;
      var x, kept, c := xs[n], KeptTrieds(e, b, xs[..n]), LoadTrieds(e, b, xs[..n]);
      TriedsReadIn(e, b, news, xs[..n]);
      TriedStep(e, b, c, news, kept, x);
    }
  }

  lemma TriedStep(e: Env, b: Book, c: Book, news: seq<Entry>, kept: seq<Entry>, x: Entry)
    requires ReadIn(c, news + kept) && SlotsTaken(e, c, kept) && c.nKey == b.nKey && c.asmap == b.asmap
    ensures var more := if e.valid(x.addr.svc.ip) && SlotFree(e, b, kept, x) then kept + [x] else kept;
            ReadIn(LoadTried(e, c, x), news + more) && SlotsTaken(e, LoadTried(e, c, x), more)
  {
    SlotFreeMeans(e, b, c, kept, x);
    var t, s := LoadTried(e, c, x), TriedSlot(e, c, InfoOf(x));
    if e.valid(x.addr.svc.ip) && s !in c.vvTried {
      ReadInMore(c, t, news + kept, x);
      assert news + kept + [x] == news + (kept + [x]);
      SlotsTakenMore(e, c, t, kept, x);
    }
  }

  lemma SlotFreeMeans(e: Env, b: Book, c: Book, kept: seq<Entry>, x: Entry)
    requires SlotsTaken(e, c, kept) && c.nKey == b.nKey && c.asmap == b.asmap
    ensures SlotFree(e, b, kept, x) <==> TriedSlot(e, c, InfoOf(x)) !in c.vvTried
  {
    if y :| y in kept && TriedSlot(e, b, InfoOf(y)) == TriedSlot(e, b, InfoOf(x)) {
      assert TriedSlot(e, c, InfoOf(y)) == TriedSlot(e, c, InfoOf(x));
    }
  }

  lemma SlotsTakenMore(e: Env, c: Book, t: Book, kept: seq<Entry>, x: Entry)
    requires SlotsTaken(e, c, kept) && c.nKey == t.nKey && c.asmap == t.asmap
    requires forall u :: u in t.vvTried <==> u in c.vvTried || u == TriedSlot(e, c, InfoOf(x))
    ensures SlotsTaken(e, t, kept + [x])
  {
    forall u ensures u in t.vvTried <==> exists y :: y in kept + [x] && TriedSlot(e, t, InfoOf(y)) == u {
      if u == TriedSlot(e, c, InfoOf(x)) {
        assert x in kept + [x] && TriedSlot(e, t, InfoOf(x)) == u;
      } else if u in c.vvTried {
        var y :| y in kept && TriedSlot(e, c, InfoOf(y)) == u;
        assert y in kept + [x] && TriedSlot(e, t, InfoOf(y)) == u;
      }
    }
  }

  lemma {:induction false} RefsReadIn(e: Env, b: Book, xs: seq<Entry>, rs: seq<Ref>, restore: bool)
    requires ReadIn(b, xs)
    ensures ReadIn(LoadRefs(e, b, rs, restore), xs)
  {
    if rs != [] {
      var c := LoadRefs(e, b, rs[..|rs| - 1], restore);
      RefsReadIn(e, b, xs, rs[..|rs| - 1], restore);
      var t := LoadRef(e, c, rs[|rs| - 1], restore);
      forall i | 0 <= i < |xs| ensures ReadAt(t, xs, i) { assert ReadAt(c, xs, i); }
      forall a | a in t.mapAddr ensures LastAt(t, xs, a) { assert LastAt(c, xs, a); }
    }
  }

  lemma FilledReadIn(e: Env, hash: seq<bool> -> nat, b: Book, d: Disk)
    ensures ReadIn(Filled(e, hash, b, d), Kept(e, b, d))
  {
    var news := LoadNews(Clear(b, d.nKey), d.newEntries);
    NewsReadIn(b, d.nKey, d.newEntries);
    TriedsReadIn(e, news, d.newEntries, d.triedEntries);
    KeptDepends(e, news, Clear(b, d.nKey), d.triedEntries);
    RefsReadIn(e, Entries(e, b, d), Kept(e, b, d), AllRefs(d.buckets, |d.newEntries|), Restores(hash, b.asmap, d));
  }

  lemma {:induction false} KeptDepends(e: Env, b: Book, c: Book, xs: seq<Entry>)
    requires b.nKey == c.nKey && b.asmap == c.asmap
    ensures KeptTrieds(e, b, xs) == KeptTrieds(e, c, xs)
  {
    if xs != [] {
      KeptDepends(e, b, c, xs[..|xs| - 1]);
      forall x ensures TriedSlot(e, b, InfoOf(x)) == TriedSlot(e, c, InfoOf(x)) { }
    }
  }

  /** Nobody who stays shares an address with anybody who was read in. */
  ghost predicate StayersApart(f: Book, xs: seq<Entry>) {
    forall i, j :: 0 <= i < |xs| && 0 <= j < |xs| && i != j && Survives(f, i) ==> xs[i].addr.svc.ip != xs[j].addr.svc.ip
  }

  lemma PrunedIndexed(f: Book, l: Book, xs: seq<Entry>)
    requires ReadIn(f, xs) && Placed(l) && AddrsPruned(f, l)
    requires forall i :: i in l.mapInfo <==> Survives(f, i)
    requires forall i <- l.mapInfo :: i in f.mapInfo && l.mapInfo[i].Ip() == f.mapInfo[i].Ip()
    requires StayersApart(f, xs)
    ensures Indexed(l)
  {
    forall i | i in l.mapInfo ensures IdIndexed(l, i) {
      var a := xs[i].addr.svc.ip;
      assert IdPlaced(l, i) && ReadAt(f, xs, i) && LastAt(f, xs, a);
      forall j | j in f.mapInfo && f.mapInfo[j].Ip() == a ensures j == i { assert ReadAt(f, xs, j); }
    }
    forall a | a in l.mapAddr ensures AddrIndexed(l, a) {
      assert LastAt(f, xs, a);
      assert ReadAt(f, xs, f.mapAddr[a]);
    }
  }

  lemma IndexedPruned(f: Book, l: Book, xs: seq<Entry>)
    requires ReadIn(f, xs) && Indexed(l) && AddrsPruned(f, l)
    requires forall i :: i in l.mapInfo <==> Survives(f, i)
    requires forall i <- l.mapInfo :: i in f.mapInfo && l.mapInfo[i].Ip() == f.mapInfo[i].Ip()
    ensures StayersApart(f, xs)
  {
    forall i, j | 0 <= i < |xs| && 0 <= j < |xs| && i != j && Survives(f, i)
      ensures xs[i].addr.svc.ip != xs[j].addr.svc.ip
    {
      assert ReadAt(f, xs, i) && ReadAt(f, xs, j) && IdIndexed(l, i);
      if j in l.mapInfo { assert IdIndexed(l, j); }
    }
  }

  /** Main result: for every stream, ids, addresses and positions index each other after loading exactly if no
      entry that survives shares its address with another entry that was read in. */
  lemma LoadIndexedExact(e: Env, hash: seq<bool> -> nat, b: Book, d: Disk)
    ensures Indexed(Load(e, hash, b, d)) <==> StayersApart(Filled(e, hash, b, d), Kept(e, b, d))
  {
    var f, l, xs := Filled(e, hash, b, d), Load(e, hash, b, d), Kept(e, b, d);
    LoadedIs(e, hash, b, d);
    FilledReadIn(e, hash, b, d);
    if Indexed(l) { IndexedPruned(f, l, xs); }
    if StayersApart(f, xs) { PrunedIndexed(f, l, xs); }
  }

  /** No survivor's last success lies before the epoch, and a tried one has had a success. */
  ghost predicate StayersTimely(f: Book, xs: seq<Entry>, nNew: nat) {
    forall i :: 0 <= i < |xs| && Survives(f, i) ==> 0 <= xs[i].nLastSuccess && (nNew <= i ==> xs[i].nLastSuccess != 0)
  }

  lemma TimelyMeans(e: Env, hash: seq<bool> -> nat, b: Book, d: Disk)
    ensures (forall i <- Load(e, hash, b, d).mapInfo :: Proper(e, Load(e, hash, b, d).mapInfo[i]))
       <==> StayersTimely(Filled(e, hash, b, d), Kept(e, b, d), |d.newEntries|)
  {
    var f, l, xs := Filled(e, hash, b, d), Load(e, hash, b, d), Kept(e, b, d);
    LoadedIs(e, hash, b, d);
    FilledReadIn(e, hash, b, d);
    FilledOk(e, hash, b, d);
    forall i | 0 <= i < |xs| && Survives(f, i)
      ensures Proper(e, l.mapInfo[i]) <==> 0 <= xs[i].nLastSuccess && (|d.newEntries| <= i ==> xs[i].nLastSuccess != 0)
    {
      assert ReadAt(f, xs, i);
    }
    forall i | i in l.mapInfo ensures 0 <= i < |xs| && Survives(f, i) { assert IdPlaced(f, i); }
  }

  /** Main result: exactly the streams that leave a consistent manager, whatever their buckets, bucket count,
      format or AS map checksum say. */
  lemma LoadExact(e: Env, hash: seq<bool> -> nat, b: Book, d: Disk)
    ensures Inv(e, Load(e, hash, b, d)) <==>
            && StayersApart(Filled(e, hash, b, d), Kept(e, b, d))
            && StayersTimely(Filled(e, hash, b, d), Kept(e, b, d), |d.newEntries|)
  {
    LoadedIs(e, hash, b, d);
    LoadIndexedExact(e, hash, b, d);
    TimelyMeans(e, hash, b, d);
    TablesAre(e, Load(e, hash, b, d), {});
  }

  /** One address twice and one reference: the second entry is pruned, and takes the address of the first along. */
  lemma DuplicateMisindexed(e: Env, hash: seq<bool> -> nat, b: Book, x: Entry)
    requires e.valid(x.addr.svc.ip)
    ensures var d := Disk(FILE_FORMAT, INCOMPATIBILITY_BASE, 0, [x, x], [], [[0]], 0);
            Accepted(d) && !Indexed(Load(e, hash, b, d))
  {
    var d := Disk(FILE_FORMAT, INCOMPATIBILITY_BASE, 0, [x, x], [], [[0]], 0);
    var c := Entries(e, b, d);
    OneReference();
    FilledReadIn(e, hash, b, d);
    assert LoadNews(Clear(b, 0), [x]) == LoadNew(Clear(b, 0), x) by { assert [x][..0] == []; }
    assert c == LoadNew(LoadNew(Clear(b, 0), x), x) by { assert [x, x][..1] == [x]; }
    assert LoadRefs(e, c, [], false) == c && [Ref(0, 0)][..0] == [];
    assert Filled(e, hash, b, d) == LoadRef(e, c, Ref(0, 0), false);
    assert Survives(Filled(e, hash, b, d), 0);
    LoadIndexedExact(e, hash, b, d);
    assert Kept(e, b, d)[0] == Kept(e, b, d)[1] == x;
  }

  lemma OneReference()
    ensures AllRefs([[0]], 2) == [Ref(0, 0)]
  {
    assert [[0]][..0] == [] && [0][..0] == [];
    assert BucketRefs(0, [0], 2) == [Ref(0, 0)];
  }

  // ----- streams such as are saved

  function Addresses(d: Disk): seq<NetAddr> {
    seq(|d.newEntries| + |d.triedEntries|, i requires 0 <= i < |d.newEntries| + |d.triedEntries| =>
      if i < |d.newEntries| then d.newEntries[i].addr.svc.ip else d.triedEntries[i - |d.newEntries|].addr.svc.ip)
  }

  /** The addresses are distinct, no success lies before the epoch, and a tried entry has had one. */
  ghost predicate Sound(d: Disk) {
    && (forall i, j :: 0 <= i < j < |Addresses(d)| ==> Addresses(d)[i] != Addresses(d)[j])
    && (forall x <- d.newEntries :: 0 <= x.nLastSuccess)
    && (forall x <- d.triedEntries :: 0 < x.nLastSuccess)
  }

  lemma SoundApart(d: Disk)
    requires Sound(d)
    ensures Apart(d.newEntries + d.triedEntries)
  {
    var xs := d.newEntries + d.triedEntries;
    forall i | 0 <= i < |xs| ensures xs[i].addr.svc.ip == Addresses(d)[i] { }
  }

  lemma {:induction false} KeptFrom(e: Env, b: Book, news: seq<Entry>, xs: seq<Entry>)
    requires Apart(news + xs)
    ensures Apart(news + KeptTrieds(e, b, xs)) && forall y <- KeptTrieds(e, b, xs) :: y in xs
  {
    if xs == [] {
      assert news + [] == news;
    } else {
      var n := |xs| - 1;
      var kept, all := KeptTrieds(e, b, xs[..n]), news + xs;
      assert Apart(news + xs[..n]) by {
        forall i | 0 <= i < |news| + n ensures (news + xs[..n])[i] == all[i] { }
      }
      KeptFrom(e, b, news, xs[..n]);
      var ys := news + (kept + [xs[n]]);
      forall i | 0 <= i < |ys| - 1 ensures ys[i].addr.svc.ip != xs[n].addr.svc.ip {
        assert ys[i] in news + xs[..n];
        var k :| 0 <= k < |news| + n && (news + xs[..n])[k] == ys[i];
        assert all[k] == ys[i] && all[|news| + n] == xs[n];
      }
      forall i, j | 0 <= i < j < |ys| ensures ys[i].addr.svc.ip != ys[j].addr.svc.ip {
        if j < |ys| - 1 { assert (news + kept)[i] == ys[i] && (news + kept)[j] == ys[j]; }
      }
    }
  }

  lemma SoundStays(e: Env, b: Book, d: Disk)
    requires Sound(d)
    ensures Apart(Kept(e, b, d))
    ensures forall i :: 0 <= i < |Kept(e, b, d)| ==>
              0 <= Kept(e, b, d)[i].nLastSuccess && (|d.newEntries| <= i ==> 0 < Kept(e, b, d)[i].nLastSuccess)
  {
    SoundApart(d);
    KeptFrom(e, Clear(b, d.nKey), d.newEntries, d.triedEntries);
    var xs, kept := Kept(e, b, d), KeptTrieds(e, Clear(b, d.nKey), d.triedEntries);
    forall i | 0 <= i < |xs| ensures 0 <= xs[i].nLastSuccess && (|d.newEntries| <= i ==> 0 < xs[i].nLastSuccess) {
      if i < |d.newEntries| {
        assert xs[i] == d.newEntries[i];
      } else {
        assert xs[i] == kept[i - |d.newEntries|] && xs[i] in kept;
      }
    }
  }

  /** A stream with distinct addresses and sensible times is one of those. */
  lemma LoadKeeps(e: Env, hash: seq<bool> -> nat, b: Book, d: Disk)
    requires Sound(d)
    ensures Inv(e, Load(e, hash, b, d))
  {
    SoundStays(e, b, d);
    LoadExact(e, hash, b, d);
  }

  // ----- saving

  /** The ids below n that satisfy p, in increasing order: how a std::map is walked. */
  function Picked(n: int, p: int -> bool): seq<int> {
    if n <= 0 then [] else Picked(n - 1, p) + if p(n - 1) then [n - 1] else []
  }

  function IsNew(b: Book): int -> bool { i => i in b.mapInfo && b.mapInfo[i].nRefCount != 0 }

  function IsTried(b: Book): int -> bool { i => i in b.mapInfo && b.mapInfo[i].fInTried }

  function SavedEntries(b: Book, ids: seq<int>): (r: seq<Entry>)
    requires forall k :: 0 <= k < |ids| ==> ids[k] in b.mapInfo
    ensures |r| == |ids| && forall k :: 0 <= k < |ids| ==> r[k] == EntryOf(b.mapInfo[ids[k]])
  {
    seq(|ids|, k requires 0 <= k < |ids| => EntryOf(b.mapInfo[ids[k]]))
  }

  /** mapUnkIds: the number of new entries before id. */
  function Rank(b: Book, id: int): nat { |Picked(id, IsNew(b))| }

  /** The occupied slots of a bucket up to position n, in order. */
  function BucketSlots(b: Book, bucket: int, n: nat): seq<Slot> {
    if n == 0 then []
    else BucketSlots(b, bucket, n - 1) + if Slot(bucket, n - 1) in b.vvNew then [Slot(bucket, n - 1)] else []
  }

  function SavedIndices(b: Book, slots: seq<Slot>): (r: seq<int>)
    requires forall k :: 0 <= k < |slots| ==> slots[k] in b.vvNew
    ensures |r| == |slots| && forall k :: 0 <= k < |slots| ==> r[k] == Rank(b, b.vvNew[slots[k]])
  {
    seq(|slots|, k requires 0 <= k < |slots| => Rank(b, b.vvNew[slots[k]]))
  }

  lemma {:induction false} BucketSlotsAre(b: Book, bucket: int, n: nat)
    ensures forall s <- BucketSlots(b, bucket, n) :: s in b.vvNew && s.bucket == bucket && 0 <= s.pos < n
    ensures forall i :: 0 <= i < n && Slot(bucket, i) in b.vvNew ==> Slot(bucket, i) in BucketSlots(b, bucket, n)
    ensures forall i, j :: 0 <= i < j < |BucketSlots(b, bucket, n)| ==>
              BucketSlots(b, bucket, n)[i].pos < BucketSlots(b, bucket, n)[j].pos
  {
    if n > 0 { BucketSlotsAre(b, bucket, n - 1); }
  }

  function SavedBuckets(b: Book, n: nat): (r: seq<seq<int>>)
    ensures |r| == n
  {
    if n == 0 then []
    else
      BucketSlotsAre(b, n - 1, BUCKET_SIZE);
      SavedBuckets(b, n - 1) + [SavedIndices(b, BucketSlots(b, n - 1, BUCKET_SIZE))]
  }

  lemma {:induction false} PickedMembers(n: int, p: int -> bool)
    ensures forall i :: i in Picked(n, p) <==> 0 <= i < n && p(i)
  {
    if n > 0 { PickedMembers(n - 1, p); }
  }

  lemma {:induction false} PickedSorted(n: int, p: int -> bool)
    ensures forall j, k :: 0 <= j < k < |Picked(n, p)| ==> Picked(n, p)[j] < Picked(n, p)[k]
  {
    if n > 0 {
      PickedSorted(n - 1, p);
      PickedMembers(n - 1, p);
      var less := Picked(n - 1, p);
      assert forall j :: 0 <= j < |less| ==> less[j] in less;
    }
  }

  lemma PickedAre(n: int, p: int -> bool)
    ensures forall i :: i in Picked(n, p) <==> 0 <= i < n && p(i)
    ensures forall j, k :: 0 <= j < k < |Picked(n, p)| ==> Picked(n, p)[j] < Picked(n, p)[k]
  {
    PickedMembers(n, p);
    PickedSorted(n, p);
  }

  /** An id's place among the picked is the number picked before it. */
  lemma {:induction false} PickedPlace(n: int, p: int -> bool, i: int)
    requires 0 <= i < n && p(i)
    ensures |Picked(i, p)| < |Picked(n, p)| && Picked(n, p)[|Picked(i, p)|] == i
  {
    if i < n - 1 { PickedPlace(n - 1, p, i); }
  }

  lemma PickedIn(b: Book, n: int, p: int -> bool)
    requires p == IsNew(b) || p == IsTried(b)
    ensures forall k :: 0 <= k < |Picked(n, p)| ==> Picked(n, p)[k] in b.mapInfo
  {
    PickedAre(n, p);
    forall k | 0 <= k < |Picked(n, p)| ensures Picked(n, p)[k] in b.mapInfo { assert Picked(n, p)[k] in Picked(n, p); }
  }

  /** Serialize (lines 382-446). */
  function Save(hash: seq<bool> -> nat, b: Book): Disk {
    PickedIn(b, b.nIdCount, IsNew(b));
    PickedIn(b, b.nIdCount, IsTried(b));
    Disk(FILE_FORMAT, INCOMPATIBILITY_BASE + FILE_FORMAT, b.nKey,
         SavedEntries(b, Picked(b.nIdCount, IsNew(b))),
         SavedEntries(b, Picked(b.nIdCount, IsTried(b))),
         SavedBuckets(b, NEW_BUCKET_COUNT),
         Checksum(hash, b.asmap))
  }

  /** All that is saved of a manager, by address: data, table, and slots of the new table. */
  datatype Record = Record(entry: Entry, tried: bool, slots: set<Slot>)

  function Contents(b: Book): map<NetAddr, Record> {
    map a | a in b.mapAddr && b.mapAddr[a] in b.mapInfo ::
      var id := b.mapAddr[a];
      Record(EntryOf(b.mapInfo[id]), b.mapInfo[id].fInTried, SlotsOf(b.vvNew, id))
  }

  // ----- what was saved is sound

  lemma NewIsNew(e: Env, b: Book, i: int)
    requires Inv(e, b)
    ensures IsNew(b)(i) <==> i in b.mapInfo && !b.mapInfo[i].fInTried
    ensures i in b.mapInfo ==> 0 <= i < b.nIdCount
  {
    if i in b.mapInfo { assert EntryOk(e, b, i, {}) && IdIndexed(b, i); }
  }

  function SetOf(s: seq<int>): set<int> { set i | i in s }

  lemma {:induction false} PickedSize(n: int, p: int -> bool)
    ensures |SetOf(Picked(n, p))| == |Picked(n, p)|
  {
    if n > 0 {
      PickedSize(n - 1, p);
      PickedMembers(n - 1, p);
      var less := Picked(n - 1, p);
      if p(n - 1) {
        assert SetOf(Picked(n, p)) == SetOf(less) + {n - 1} && n - 1 !in SetOf(less);
      } else {
        assert Picked(n, p) == less;
      }
    }
  }

  /** The lists that are written are as long as the counters written before them say. */
  lemma SavedCounts(e: Env, hash: seq<bool> -> nat, b: Book)
    requires Inv(e, b)
    ensures |Save(hash, b).newEntries| == b.nNew && |Save(hash, b).triedEntries| == b.nTried
  {
    var n := b.nIdCount;
    PickedSize(n, IsNew(b));
    PickedSize(n, IsTried(b));
    PickedMembers(n, IsNew(b));
    PickedMembers(n, IsTried(b));
    forall i ensures i in Picked(n, IsNew(b)) <==> i in NewIds(b.mapInfo) { NewIsNew(e, b, i); }
    forall i ensures i in Picked(n, IsTried(b)) <==> i in TriedIds(b.mapInfo) { NewIsNew(e, b, i); }
    assert SetOf(Picked(n, IsNew(b))) == NewIds(b.mapInfo);
    assert SetOf(Picked(n, IsTried(b))) == TriedIds(b.mapInfo);
  }

  lemma {:induction false} PickedGrows(m: int, n: int, p: int -> bool)
    requires m <= n
    ensures |Picked(m, p)| <= |Picked(n, p)|
    decreases n - m
  {
    if m < n { PickedGrows(m, n - 1, p); }
  }

  /** The i-th entry written is the i-th identifier picked, first of the new ones, then of the tried ones. */
  lemma SavedAddress(e: Env, hash: seq<bool> -> nat, b: Book, ns: seq<int>, ts: seq<int>, i: nat)
    requires Inv(e, b) && ns == Picked(b.nIdCount, IsNew(b)) && ts == Picked(b.nIdCount, IsTried(b)) && i < |ns| + |ts|
    ensures (ns + ts)[i] in b.mapInfo && i < |Addresses(Save(hash, b))|
    ensures Addresses(Save(hash, b))[i] == b.mapInfo[(ns + ts)[i]].Ip()
  {
    PickedAre(b.nIdCount, IsNew(b));
    PickedAre(b.nIdCount, IsTried(b));
    if i < |ns| { assert ns[i] in ns; } else { assert ts[i - |ns|] in ts; }
  }

  lemma SavedApart(e: Env, b: Book, ns: seq<int>, ts: seq<int>, i: nat, j: nat)
    requires Inv(e, b) && ns == Picked(b.nIdCount, IsNew(b)) && ts == Picked(b.nIdCount, IsTried(b)) && i < j < |ns| + |ts|
    ensures (ns + ts)[i] != (ns + ts)[j]
  {
    PickedAre(b.nIdCount, IsNew(b));
    PickedAre(b.nIdCount, IsTried(b));
    if i < |ns| <= j {
      assert ns[i] in ns && ts[j - |ns|] in ts;
      NewIsNew(e, b, ns[i]);
    }
  }

  lemma SaveSound(e: Env, hash: seq<bool> -> nat, b: Book)
    requires Inv(e, b)
    ensures Sound(Save(hash, b))
  {
    var d := Save(hash, b);
    var ns, ts := Picked(b.nIdCount, IsNew(b)), Picked(b.nIdCount, IsTried(b));
    var all := ns + ts;
    forall i, j | 0 <= i < j < |Addresses(d)| ensures Addresses(d)[i] != Addresses(d)[j] {
      SavedAddress(e, hash, b, ns, ts, i);
      SavedAddress(e, hash, b, ns, ts, j);
      SavedApart(e, b, ns, ts, i, j);
      NewIsNew(e, b, all[i]);
      NewIsNew(e, b, all[j]);
      assert IdIndexed(b, all[i]) && IdIndexed(b, all[j]);
    }
    SaveTimes(e, hash, b);
  }

  lemma SaveTimes(e: Env, hash: seq<bool> -> nat, b: Book)
    requires Inv(e, b)
    ensures forall x <- Save(hash, b).newEntries :: 0 <= x.nLastSuccess
    ensures forall x <- Save(hash, b).triedEntries :: 0 < x.nLastSuccess
  {
    var d := Save(hash, b);
    var ns, ts := Picked(b.nIdCount, IsNew(b)), Picked(b.nIdCount, IsTried(b));
    PickedAre(b.nIdCount, IsNew(b));
    PickedAre(b.nIdCount, IsTried(b));
    forall x | x in d.newEntries ensures 0 <= x.nLastSuccess {
      var k :| 0 <= k < |ns| && d.newEntries[k] == x;
      assert ns[k] in ns && EntryOk(e, b, ns[k], {});
    }
    forall x | x in d.triedEntries ensures 0 < x.nLastSuccess {
      var k :| 0 <= k < |ts| && d.triedEntries[k] == x;
      assert ts[k] in ts && EntryOk(e, b, ts[k], {});
    }
  }

  // ----- what was saved is accepted

  /** The slots of the first n buckets. */
  function Grid(n: nat): (g: set<Slot>)
    ensures forall s :: s in g <==> 0 <= s.bucket < n && 0 <= s.pos < BUCKET_SIZE
    ensures |g| == n * BUCKET_SIZE
  {
    if n == 0 then {} else
      RowSize(n - 1, BUCKET_SIZE);
      assert Grid(n - 1) !! Row(n - 1, BUCKET_SIZE);
      Grid(n - 1) + Row(n - 1, BUCKET_SIZE)
  }

  function Row(bucket: int, n: nat): (r: set<Slot>)
    ensures forall s :: s in r <==> s.bucket == bucket && 0 <= s.pos < n
  {
    if n == 0 then {} else Row(bucket, n - 1) + {Slot(bucket, n - 1)}
  }

  lemma {:induction false} RowSize(bucket: int, n: nat)
    ensures |Row(bucket, n)| == n
  {
    if n > 0 { RowSize(bucket, n - 1); }
  }

  lemma AnyOf<T>(s: set<T>) returns (x: T)
    requires s != {}
    ensures x in s
  {
    x :| x in s;
  }

  /** Distinct ids with a slot each are no more than the slots. */
  lemma {:induction false} NoMoreThanSlots(t: map<Slot, int>, ids: set<int>, g: set<Slot>)
    requires t.Keys <= g && forall id <- ids :: SlotsOf(t, id) != {}
    ensures |ids| <= |g|
  {
    if ids != {} {
      var id := AnyOf(ids);
      var s :| s in SlotsOf(t, id);
      forall i | i in ids - {id} ensures SlotsOf(t - {s}, i) != {} {
        var u :| u in SlotsOf(t, i);
        assert u in SlotsOf(t - {s}, i);
      }
      NoMoreThanSlots(t - {s}, ids - {id}, g - {s});
    }
  }

  lemma TableHolds(t: map<Slot, int>, ids: set<int>, n: nat)
    requires forall s <- t :: 0 <= s.bucket < n && 0 <= s.pos < BUCKET_SIZE
    requires forall id <- ids :: SlotsOf(t, id) != {}
    ensures |ids| <= n * BUCKET_SIZE
  {
    NoMoreThanSlots(t, ids, Grid(n));
  }

  /** Every entry owns a slot of its table, so the counts written pass the limits that are read against. */
  lemma SaveAccepted(e: Env, hash: seq<bool> -> nat, b: Book)
    requires Inv(e, b)
    ensures Accepted(Save(hash, b))
  {
    SavedCounts(e, hash, b);
    forall s | s in b.vvNew ensures 0 <= s.bucket < NEW_BUCKET_COUNT && 0 <= s.pos < BUCKET_SIZE {
      assert NewSlotOk(e, b, s);
    }
    forall s | s in b.vvTried ensures 0 <= s.bucket < TRIED_BUCKET_COUNT && 0 <= s.pos < BUCKET_SIZE {
      assert TriedSlotOk(e, b, s);
    }
    forall id | id in NewIds(b.mapInfo) ensures SlotsOf(b.vvNew, id) != {} { assert EntryOk(e, b, id, {}); }
    forall id | id in TriedIds(b.mapInfo) ensures SlotsOf(b.vvTried, id) != {} {
      assert EntryOk(e, b, id, {});
      assert TriedSlot(e, b, b.mapInfo[id]) in SlotsOf(b.vvTried, id);
    }
    TableHolds(b.vvNew, NewIds(b.mapInfo), NEW_BUCKET_COUNT);
    TableHolds(b.vvTried, TriedIds(b.mapInfo), TRIED_BUCKET_COUNT);
  }

  // ----- loading what was saved

  function NewCount(b: Book): nat { |Picked(b.nIdCount, IsNew(b))| }

  /** The id an entry gets when it is loaded again. */
  function Image(b: Book, id: int): nat
    requires id in b.mapInfo
  {
    if b.mapInfo[id].fInTried then NewCount(b) + |Picked(id, IsTried(b))| else Rank(b, id)
  }

  /** Tried entry number j sits under the next free id but j. */
  ghost predicate Taken(b: Book, d: Book, ts: seq<int>, j: nat)
    requires j < |ts| && ts[j] in b.mapInfo
  {
    var id := NewCount(b) + j;
    id in d.mapInfo && d.mapInfo[id].fInTried && EntryOf(d.mapInfo[id]) == EntryOf(b.mapInfo[ts[j]])
  }

  /** The first k tried entries have all been taken. */
  ghost predicate TriedTaken(e: Env, b: Book, d: Book, ts: seq<int>, k: nat)
    requires k <= |ts| && forall j :: 0 <= j < |ts| ==> ts[j] in b.mapInfo
  {
    && d.nIdCount == NewCount(b) + k && d.nKey == b.nKey && d.asmap == b.asmap
    && (forall j :: 0 <= j < k ==> Taken(b, d, ts, j))
    && (forall s <- d.vvTried :: exists j :: 0 <= j < k && s == TriedSlot(e, b, b.mapInfo[ts[j]]))
    && (forall i <- d.mapInfo :: i < NewCount(b) + k)
  }

  lemma TriedApart(e: Env, b: Book, i: int, j: int)
    requires Inv(e, b) && i in b.mapInfo && j in b.mapInfo && i != j && b.mapInfo[i].fInTried && b.mapInfo[j].fInTried
    ensures TriedSlot(e, b, b.mapInfo[i]) != TriedSlot(e, b, b.mapInfo[j])
  {
    assert EntryOk(e, b, i, {}) && EntryOk(e, b, j, {});
  }

  lemma TriedSlotNext(e: Env, b: Book, d: Book, ts: seq<int>, k: nat)
    requires Inv(e, b) && ts == Picked(b.nIdCount, IsTried(b)) && k < |ts|
    requires forall j :: 0 <= j < |ts| ==> ts[j] in b.mapInfo
    requires TriedTaken(e, b, d, ts, k)
    ensures var x := EntryOf(b.mapInfo[ts[k]]);
            var s := TriedSlot(e, d, InfoOf(x));
            s == TriedSlot(e, b, b.mapInfo[ts[k]]) && s !in d.vvTried && e.valid(x.addr.svc.ip)
  {
    PickedAre(b.nIdCount, IsTried(b));
    assert ts[k] in ts && EntryOk(e, b, ts[k], {});
    forall j | 0 <= j < k ensures TriedSlot(e, b, b.mapInfo[ts[k]]) != TriedSlot(e, b, b.mapInfo[ts[j]]) {
      assert ts[j] in ts;
      TriedApart(e, b, ts[j], ts[k]);
    }
  }

  lemma TakeTried(e: Env, b: Book, d: Book, ts: seq<int>, k: nat)
    requires Inv(e, b) && ts == Picked(b.nIdCount, IsTried(b)) && k < |ts|
    requires forall j :: 0 <= j < |ts| ==> ts[j] in b.mapInfo
    requires TriedTaken(e, b, d, ts, k)
    ensures TriedTaken(e, b, LoadTried(e, d, EntryOf(b.mapInfo[ts[k]])), ts, k + 1)
  {
    TriedSlotNext(e, b, d, ts, k);
    var x := EntryOf(b.mapInfo[ts[k]]);
    var s, f := TriedSlot(e, d, InfoOf(x)), LoadTried(e, d, x);
    forall j | 0 <= j < k + 1 ensures Taken(b, f, ts, j) { if j < k { assert Taken(b, d, ts, j); } }
    forall t | t in f.vvTried ensures exists j :: 0 <= j < k + 1 && t == TriedSlot(e, b, b.mapInfo[ts[j]]) {
      if t != s {
        var j :| 0 <= j < k && t == TriedSlot(e, b, b.mapInfo[ts[j]]);
      }
    }
  }

  lemma {:induction false} TakeTrieds(e: Env, b: Book, c: Book, ts: seq<int>, k: nat)
    requires Inv(e, b) && ts == Picked(b.nIdCount, IsTried(b)) && k <= |ts|
    requires forall j :: 0 <= j < |ts| ==> ts[j] in b.mapInfo
    requires TriedTaken(e, b, c, ts, 0)
    ensures TriedTaken(e, b, LoadTrieds(e, c, SavedEntries(b, ts)[..k]), ts, k)
  {
    var xs := SavedEntries(b, ts)[..k];
    if k == 0 {
      assert xs == [];
    } else {
      TakeTrieds(e, b, c, ts, k - 1);
      assert xs[..k - 1] == SavedEntries(b, ts)[..k - 1];
      var d := LoadTrieds(e, c, xs[..k - 1]);
      assert LoadTrieds(e, c, xs) == LoadTried(e, d, EntryOf(b.mapInfo[ts[k - 1]]));
      TakeTried(e, b, d, ts, k - 1);
    }
  }

  lemma NewsSaved(e: Env, hash: seq<bool> -> nat, b: Book, b': Book)
    requires Inv(e, b) && b'.asmap == b.asmap
    ensures var c, ts := LoadNews(Clear(b', b.nKey), Save(hash, b).newEntries), Picked(b.nIdCount, IsTried(b));
            (forall j :: 0 <= j < |ts| ==> ts[j] in b.mapInfo) && TriedTaken(e, b, c, ts, 0)
  {
    SaveSound(e, hash, b);
    EntriesOk(e, b', Save(hash, b));
    PickedIn(b, b.nIdCount, IsTried(b));
  }

  lemma TriedSaved(e: Env, hash: seq<bool> -> nat, b: Book, b': Book)
    requires Inv(e, b) && b'.asmap == b.asmap
    ensures var ts := Picked(b.nIdCount, IsTried(b));
            (forall j :: 0 <= j < |ts| ==> ts[j] in b.mapInfo) && TriedTaken(e, b, Entries(e, b', Save(hash, b)), ts, |ts|)
  {
    NewsSaved(e, hash, b, b');
    var d, ts := Save(hash, b), Picked(b.nIdCount, IsTried(b));
    TakeTrieds(e, b, LoadNews(Clear(b', d.nKey), d.newEntries), ts, |ts|);
    assert d.triedEntries[..|ts|] == d.triedEntries;
  }

  /** Entry number j of the new table, as it was. */
  ghost predicate Reread(b: Book, c: Book, j: nat)
    requires j < NewCount(b)
  {
    var id := Picked(b.nIdCount, IsNew(b))[j];
    id in b.mapInfo && j in c.mapInfo && !c.mapInfo[j].fInTried && EntryOf(c.mapInfo[j]) == EntryOf(b.mapInfo[id])
  }

  lemma NewSaved(e: Env, hash: seq<bool> -> nat, b: Book, b': Book, j: nat)
    requires Inv(e, b) && b'.asmap == b.asmap && j < NewCount(b)
    ensures Reread(b, Entries(e, b', Save(hash, b)), j)
  {
    var d := Save(hash, b);
    SaveSound(e, hash, b);
    EntriesOk(e, b', d);
    PickedIn(b, b.nIdCount, IsNew(b));
    var c := LoadNews(Clear(b', d.nKey), d.newEntries);
    assert c.mapInfo[j] == InfoOf(d.newEntries[j]).(nRandomPos := j);
    assert SameAt(Entries(e, b', d), c, j);
  }

  // ----- the references go back where they came from

  function AllSlots(b: Book, n: nat): seq<Slot> {
    if n == 0 then [] else AllSlots(b, n - 1) + BucketSlots(b, n - 1, BUCKET_SIZE)
  }

  lemma {:induction false} AllSlotsAre(b: Book, n: nat)
    ensures forall s <- AllSlots(b, n) :: s in b.vvNew && 0 <= s.bucket < n
    ensures forall s <- b.vvNew :: 0 <= s.bucket < n && 0 <= s.pos < BUCKET_SIZE ==> s in AllSlots(b, n)
    ensures forall i, j :: 0 <= i < j < |AllSlots(b, n)| ==> AllSlots(b, n)[i] != AllSlots(b, n)[j]
  {
    if n > 0 {
      AllSlotsAre(b, n - 1);
      BucketSlotsAre(b, n - 1, BUCKET_SIZE);
      var front, back := AllSlots(b, n - 1), BucketSlots(b, n - 1, BUCKET_SIZE);
      forall s | s in b.vvNew && 0 <= s.bucket < n && 0 <= s.pos < BUCKET_SIZE ensures s in front + back {
        if s.bucket == n - 1 { assert s == Slot(n - 1, s.pos); }
      }
      forall i, j | 0 <= i < j < |front + back| ensures (front + back)[i] != (front + back)[j] {
        if i < |front| <= j { assert front[i] in front && back[j - |front|] in back; }
      }
    }
  }

  function RefsFor(b: Book, slots: seq<Slot>): (r: seq<Ref>)
    requires forall k :: 0 <= k < |slots| ==> slots[k] in b.vvNew
    ensures |r| == |slots|
    ensures forall k :: 0 <= k < |slots| ==> r[k] == Ref(slots[k].bucket, Rank(b, b.vvNew[slots[k]]))
  {
    seq(|slots|, k requires 0 <= k < |slots| => Ref(slots[k].bucket, Rank(b, b.vvNew[slots[k]])))
  }

  /** The rank of a slot's holder finds the holder again. */
  lemma RankFinds(e: Env, b: Book, id: int)
    requires Inv(e, b) && id in b.mapInfo && !b.mapInfo[id].fInTried
    ensures Rank(b, id) < NewCount(b) && Picked(b.nIdCount, IsNew(b))[Rank(b, id)] == id
  {
    NewIsNew(e, b, id);
    PickedPlace(b.nIdCount, IsNew(b), id);
  }

  lemma {:induction false} BucketRefsSaved(e: Env, b: Book, bucket: int, slots: seq<Slot>)
    requires Inv(e, b) && forall k :: 0 <= k < |slots| ==> slots[k] in b.vvNew && slots[k].bucket == bucket
    ensures BucketRefs(bucket, SavedIndices(b, slots), NewCount(b)) == RefsFor(b, slots)
  {
    if slots != [] {
      var n := |slots| - 1;
      BucketRefsSaved(e, b, bucket, slots[..n]);
      assert SavedIndices(b, slots)[..n] == SavedIndices(b, slots[..n]);
      assert NewSlotOk(e, b, slots[n]);
      RankFinds(e, b, b.vvNew[slots[n]]);
      assert RefsFor(b, slots) == RefsFor(b, slots[..n]) + [RefsFor(b, slots)[n]];
    }
  }

  lemma SlotsIn(b: Book, n: nat)
    ensures forall k :: 0 <= k < |AllSlots(b, n)| ==> AllSlots(b, n)[k] in b.vvNew
    ensures forall k :: 0 <= k < |BucketSlots(b, n, BUCKET_SIZE)| ==>
              BucketSlots(b, n, BUCKET_SIZE)[k] in b.vvNew && BucketSlots(b, n, BUCKET_SIZE)[k].bucket == n
  {
    AllSlotsAre(b, n);
    BucketSlotsAre(b, n, BUCKET_SIZE);
    var all, one := AllSlots(b, n), BucketSlots(b, n, BUCKET_SIZE);
    assert forall k :: 0 <= k < |all| ==> all[k] in all;
    assert forall k :: 0 <= k < |one| ==> one[k] in one;
  }

  lemma RefsForConcat(b: Book, front: seq<Slot>, back: seq<Slot>)
    requires forall k :: 0 <= k < |front| ==> front[k] in b.vvNew
    requires forall k :: 0 <= k < |back| ==> back[k] in b.vvNew
    ensures RefsFor(b, front + back) == RefsFor(b, front) + RefsFor(b, back)
  {
  }

  lemma {:induction false} AllRefsSaved(e: Env, b: Book, n: nat)
    requires Inv(e, b)
    requires forall k :: 0 <= k < |AllSlots(b, n)| ==> AllSlots(b, n)[k] in b.vvNew
    ensures AllRefs(SavedBuckets(b, n), NewCount(b)) == RefsFor(b, AllSlots(b, n))
  {
    if n > 0 {
      SlotsIn(b, n - 1);
      AllRefsSaved(e, b, n - 1);
      var back := BucketSlots(b, n - 1, BUCKET_SIZE);
      BucketRefsSaved(e, b, n - 1, back);
      AllRefsSnoc(SavedBuckets(b, n - 1), SavedIndices(b, back), NewCount(b));
      RefsForConcat(b, AllSlots(b, n - 1), back);
    }
  }

  lemma AllRefsSnoc(buckets: seq<seq<int>>, last: seq<int>, nNew: int)
    ensures AllRefs(buckets + [last], nNew) == AllRefs(buckets, nNew) + BucketRefs(|buckets|, last, nNew)
  {
    assert (buckets + [last])[..|buckets|] == buckets;
  }

  /** The slots have been refilled, each with the new id of its holder. */
  ghost predicate Refilled(b: Book, c: Book, c0: Book, slots: seq<Slot>) {
    && c.nKey == b.nKey && c.asmap == b.asmap && c.mapInfo.Keys == c0.mapInfo.Keys
    && (forall i {:trigger Untouched(c, c0, i)} :: i in c.mapInfo ==> Untouched(c, c0, i))
    && (forall s :: s in c.vvNew <==> s in slots)
    && (forall s <- slots :: s in b.vvNew && c.vvNew[s] == Rank(b, b.vvNew[s]))
  }

  ghost predicate Untouched(c: Book, c0: Book, i: int)
    requires i in c.mapInfo
  {
    i in c0.mapInfo && c.mapInfo[i] == c0.mapInfo[i].(nRefCount := c.mapInfo[i].nRefCount)
  }

  /** So far the entry has fewer references than it had. */
  lemma RefsLeft(e: Env, b: Book, c: Book, c0: Book, slots: seq<Slot>, s: Slot)
    requires Inv(e, b) && Refilled(b, c, c0, slots) && s in b.vvNew && s !in slots
    ensures NewSlotOk(e, b, s)
    ensures |SlotsOf(c.vvNew, Rank(b, b.vvNew[s]))| < NEW_BUCKETS_PER_ADDRESS
  {
    assert NewSlotOk(e, b, s);
    var id := b.vvNew[s];
    assert EntryOk(e, b, id, {});
    RankFinds(e, b, id);
    var got, all := SlotsOf(c.vvNew, Rank(b, id)), SlotsOf(b.vvNew, id);
    forall t | t in got ensures t in all && t != s {
      assert NewSlotOk(e, b, t);
      RankFinds(e, b, b.vvNew[t]);
    }
    SubsetLess(got, all, s);
  }

  lemma SubsetLess(a: set<Slot>, b: set<Slot>, x: Slot)
    requires a <= b && x in b && x !in a
    ensures |a| < |b|
  {
    var rest := b - {x};
    CardinalityAdd(rest, b, x);
    SubsetCount(a, rest);
  }

  lemma {:induction false} SubsetCount(a: set<Slot>, b: set<Slot>)
    requires a <= b
    ensures |a| <= |b|
    decreases a
  {
    if a != {} {
      var x :| x in a;
      SubsetCount(a - {x}, b - {x});
    }
  }

  lemma RefillStep(e: Env, b: Book, c: Book, c0: Book, slots: seq<Slot>, s: Slot)
    requires Inv(e, b) && Refilled(b, c, c0, slots) && s in b.vvNew && s !in slots
    requires forall j :: 0 <= j < NewCount(b) ==> Reread(b, c0, j)
    requires RefsLoaded(e, c, c0, NewCount(b))
    ensures Refilled(b, LoadRef(e, c, Ref(s.bucket, Rank(b, b.vvNew[s])), true), c0, slots + [s])
  {
    RefsLeft(e, b, c, c0, slots, s);
    var id := b.vvNew[s];
    RankFinds(e, b, id);
    var j := Rank(b, id);
    assert Reread(b, c0, j) && Untouched(c, c0, j);
    assert EntryOk(e, b, id, {}) && Settled(e, c, j, Below(NewCount(b)));
    var f := LoadRef(e, c, Ref(s.bucket, j), true);
    assert f == Insert(c, j, s);
    forall i | i in f.mapInfo ensures Untouched(f, c0, i) { assert Untouched(c, c0, i); }
  }

  lemma RefsForLoaded(e: Env, b: Book, c0: Book, slots: seq<Slot>)
    requires Inv(e, b) && RefsLoaded(e, c0, c0, NewCount(b))
    requires forall i :: 0 <= i < |slots| ==> slots[i] in b.vvNew
    ensures RefsLoaded(e, LoadRefs(e, c0, RefsFor(b, slots), true), c0, NewCount(b))
  {
    var rs := RefsFor(b, slots);
    forall r | r in rs ensures 0 <= r.index < NewCount(b) && 0 <= r.bucket < NEW_BUCKET_COUNT {
      var i :| 0 <= i < |slots| && rs[i] == r;
      assert NewSlotOk(e, b, slots[i]);
      RankFinds(e, b, b.vvNew[slots[i]]);
    }
    LoadRefsOk(e, c0, NewCount(b), rs, true);
  }

  lemma LoadOneMore(e: Env, b: Book, c0: Book, slots: seq<Slot>)
    requires slots != [] && forall i :: 0 <= i < |slots| ==> slots[i] in b.vvNew
    ensures var n := |slots| - 1;
            LoadRefs(e, c0, RefsFor(b, slots), true)
            == LoadRef(e, LoadRefs(e, c0, RefsFor(b, slots[..n]), true), Ref(slots[n].bucket, Rank(b, b.vvNew[slots[n]])), true)
  {
    var n := |slots| - 1;
    assert RefsFor(b, slots)[..n] == RefsFor(b, slots[..n]);
  }

  lemma PutBack<T>(s: seq<T>)
    requires s != []
    ensures s[..|s| - 1] + [s[|s| - 1]] == s
  {
  }

  lemma {:induction false} RefillAll(e: Env, b: Book, c0: Book, slots: seq<Slot>)
    requires Inv(e, b) && Refilled(b, c0, c0, []) && RefsLoaded(e, c0, c0, NewCount(b))
    requires forall j :: 0 <= j < NewCount(b) ==> Reread(b, c0, j)
    requires forall i :: 0 <= i < |slots| ==> slots[i] in b.vvNew
    requires forall i, j :: 0 <= i < j < |slots| ==> slots[i] != slots[j]
    ensures Refilled(b, LoadRefs(e, c0, RefsFor(b, slots), true), c0, slots)
  {
    if slots != [] {
      var n := |slots| - 1;
      RefillAll(e, b, c0, slots[..n]);
      RefsForLoaded(e, b, c0, slots[..n]);
      RefillStep(e, b, LoadRefs(e, c0, RefsFor(b, slots[..n]), true), c0, slots[..n], slots[n]);
      LoadOneMore(e, b, c0, slots);
      PutBack(slots);
    }
  }

  /** Nothing to prune, nothing pruned. */
  lemma {:induction false} PruneNothing(b: Book, ids: seq<int>)
    requires Placed(b) && forall i <- b.mapInfo :: Survives(b, i)
    ensures Prune(b, ids) == b
  {
    if ids != [] { PruneNothing(b, ids[..|ids| - 1]); }
  }

  // ----- Unserialize inverts Serialize

  /** The book before pruning. */
  lemma FilledSaved(e: Env, hash: seq<bool> -> nat, b: Book, b': Book)
    requires Inv(e, b) && b'.asmap == b.asmap
    ensures var c0, f := Entries(e, b', Save(hash, b)), Filled(e, hash, b', Save(hash, b));
            && RefsLoaded(e, f, c0, NewCount(b))
            && (forall j :: 0 <= j < NewCount(b) ==> Reread(b, c0, j))
            && Refilled(b, f, c0, AllSlots(b, NEW_BUCKET_COUNT))
  {
    var d := Save(hash, b);
    var c0 := Entries(e, b', d);
    SaveSound(e, hash, b);
    FilledOk(e, hash, b', d);
    forall j | 0 <= j < NewCount(b) ensures Reread(b, c0, j) { NewSaved(e, hash, b, b', j); }
    EntriesOk(e, b', d);
    EntriesLoaded(e, hash, b, b');
    SlotsIn(b, NEW_BUCKET_COUNT);
    AllSlotsAre(b, NEW_BUCKET_COUNT);
    AllRefsSaved(e, b, NEW_BUCKET_COUNT);
    RefillAll(e, b, c0, AllSlots(b, NEW_BUCKET_COUNT));
  }

  lemma EntriesLoaded(e: Env, hash: seq<bool> -> nat, b: Book, b': Book)
    requires Inv(e, b) && b'.asmap == b.asmap
    ensures var c0 := Entries(e, b', Save(hash, b));
            RefsLoaded(e, c0, c0, NewCount(b)) && Refilled(b, c0, c0, [])
  {
    var d := Save(hash, b);
    SaveSound(e, hash, b);
    EntriesOk(e, b', d);
    EntriesReady(e, b', d);
    var c0 := Entries(e, b', d);
    forall i | i in c0.mapInfo ensures Untouched(c0, c0, i) {
    }
  }

  /** Every slot of an entry is again a slot of its image. */
  lemma SlotsSaved(e: Env, b: Book, f: Book, c0: Book, id: int)
    requires Inv(e, b) && id in b.mapInfo && !b.mapInfo[id].fInTried
    requires Refilled(b, f, c0, AllSlots(b, NEW_BUCKET_COUNT))
    ensures SlotsOf(f.vvNew, Rank(b, id)) == SlotsOf(b.vvNew, id) != {}
  {
    AllSlotsAre(b, NEW_BUCKET_COUNT);
    RankFinds(e, b, id);
    assert EntryOk(e, b, id, {});
    forall s ensures s in SlotsOf(f.vvNew, Rank(b, id)) <==> s in SlotsOf(b.vvNew, id) {
      if s in b.vvNew {
        assert NewSlotOk(e, b, s);
        RankFinds(e, b, b.vvNew[s]);
      }
    }
  }

  /** Entry id of b and entry Image(b, id) of f hold the same. */
  ghost predicate Mirrored(b: Book, f: Book, id: int)
    requires id in b.mapInfo
  {
    var i := Image(b, id);
    && i in f.mapInfo && EntryOf(f.mapInfo[i]) == EntryOf(b.mapInfo[id])
    && f.mapInfo[i].fInTried == b.mapInfo[id].fInTried && SlotsOf(f.vvNew, i) == SlotsOf(b.vvNew, id)
  }

  lemma TriedHasNoSlots(e: Env, b: Book, id: int)
    requires (forall s <- b.vvNew :: NewSlotOk(e, b, s)) && id in b.mapInfo && b.mapInfo[id].fInTried
    ensures SlotsOf(b.vvNew, id) == {}
  {
    forall s | s in b.vvNew ensures b.vvNew[s] != id { assert NewSlotOk(e, b, s); }
  }

  lemma NewMirrored(e: Env, hash: seq<bool> -> nat, b: Book, b': Book, id: int)
    requires Inv(e, b) && b'.asmap == b.asmap && id in b.mapInfo && !b.mapInfo[id].fInTried
    ensures Mirrored(b, Filled(e, hash, b', Save(hash, b)), id)
  {
    FilledSaved(e, hash, b, b');
    var c0, f := Entries(e, b', Save(hash, b)), Filled(e, hash, b', Save(hash, b));
    RankFinds(e, b, id);
    var j := Rank(b, id);
    assert Reread(b, c0, j) && Untouched(f, c0, j);
    SlotsSaved(e, b, f, c0, id);
  }

  lemma TriedAgain(e: Env, hash: seq<bool> -> nat, b: Book, b': Book, id: int)
    requires Inv(e, b) && b'.asmap == b.asmap && id in b.mapInfo && b.mapInfo[id].fInTried
    ensures var c, i := Entries(e, b', Save(hash, b)), Image(b, id);
            i in c.mapInfo && c.mapInfo[i].fInTried && EntryOf(c.mapInfo[i]) == EntryOf(b.mapInfo[id])
  {
    TriedSaved(e, hash, b, b');
    NewIsNew(e, b, id);
    PickedPlace(b.nIdCount, IsTried(b), id);
    TakenImage(b, Entries(e, b', Save(hash, b)), Picked(b.nIdCount, IsTried(b)), |Picked(id, IsTried(b))|, id);
  }

  lemma TakenImage(b: Book, c: Book, ts: seq<int>, j: nat, id: int)
    requires j < |ts| && ts[j] == id && id in b.mapInfo && b.mapInfo[id].fInTried && j == |Picked(id, IsTried(b))|
    requires Taken(b, c, ts, j)
    ensures var i := Image(b, id);
            i in c.mapInfo && c.mapInfo[i].fInTried && EntryOf(c.mapInfo[i]) == EntryOf(b.mapInfo[id])
  {
  }

  lemma TriedMirrored(e: Env, hash: seq<bool> -> nat, b: Book, b': Book, id: int)
    requires Inv(e, b) && b'.asmap == b.asmap && id in b.mapInfo && b.mapInfo[id].fInTried
    ensures Mirrored(b, Filled(e, hash, b', Save(hash, b)), id)
  {
    FilledSaved(e, hash, b, b');
    TriedAgain(e, hash, b, b', id);
    var c0, f, i := Entries(e, b', Save(hash, b)), Filled(e, hash, b', Save(hash, b)), Image(b, id);
    assert Untouched(f, c0, i);
    TriedHasNoSlots(e, f, i);
    TriedHasNoSlots(e, b, id);
  }

  lemma FilledIds(e: Env, hash: seq<bool> -> nat, b: Book, b': Book, i: int)
    requires Inv(e, b) && b'.asmap == b.asmap && i in Filled(e, hash, b', Save(hash, b)).mapInfo
    ensures 0 <= i < |Picked(b.nIdCount, IsNew(b))| + |Picked(b.nIdCount, IsTried(b))|
  {
    FilledSaved(e, hash, b, b');
    TriedSaved(e, hash, b, b');
    assert IdPlaced(Filled(e, hash, b', Save(hash, b)), i);
    assert i in Entries(e, b', Save(hash, b)).mapInfo;
  }

  /** Every loaded entry is the image of a saved one. */
  lemma ImageOnto(e: Env, hash: seq<bool> -> nat, b: Book, b': Book, i: int) returns (id: int)
    requires Inv(e, b) && b'.asmap == b.asmap && i in Filled(e, hash, b', Save(hash, b)).mapInfo
    ensures id in b.mapInfo && Image(b, id) == i
  {
    FilledIds(e, hash, b, b', i);
    var ns, ts := Picked(b.nIdCount, IsNew(b)), Picked(b.nIdCount, IsTried(b));
    if i < |ns| {
      id := ns[i];
      PickedAre(b.nIdCount, IsNew(b));
      assert id in ns;
      NewIsNew(e, b, id);
      RankFinds(e, b, id);
    } else {
      id := ts[i - |ns|];
      PickedAre(b.nIdCount, IsTried(b));
      assert id in ts;
      NewIsNew(e, b, id);
      PickedPlace(b.nIdCount, IsTried(b), id);
    }
  }

  /** No new entry comes back without a slot. */
  lemma NothingLost(e: Env, hash: seq<bool> -> nat, b: Book, b': Book)
    requires Inv(e, b) && b'.asmap == b.asmap
    ensures var f := Filled(e, hash, b', Save(hash, b));
            f.nKey == b.nKey && forall i <- f.mapInfo :: Survives(f, i)
  {
    FilledSaved(e, hash, b, b');
    var f := Filled(e, hash, b', Save(hash, b));
    forall i | i in f.mapInfo ensures Survives(f, i) {
      var id := ImageOnto(e, hash, b, b', i);
      if b.mapInfo[id].fInTried {
        TriedMirrored(e, hash, b, b', id);
      } else {
        SlotsSaved(e, b, f, Entries(e, b', Save(hash, b)), id);
        assert Settled(e, f, i, Below(NewCount(b)));
      }
    }
  }

  lemma MirrorContents(e: Env, b: Book, f: Book, a: NetAddr)
    requires Inv(e, b) && Inv(e, f) && a in b.mapAddr
    requires AddrIndexed(b, a) && Mirrored(b, f, b.mapAddr[a])
    ensures a in Contents(f) && a in Contents(b) && Contents(f)[a] == Contents(b)[a]
  {
    var id := b.mapAddr[a];
    var i := Image(b, id);
    assert IdIndexed(f, i);
    assert f.mapInfo[i].Ip() == a;
  }

  lemma KnownBefore(e: Env, hash: seq<bool> -> nat, b: Book, b': Book, a: NetAddr)
    requires Inv(e, b) && b'.asmap == b.asmap
    requires var f := Filled(e, hash, b', Save(hash, b)); Indexed(f) && a in f.mapAddr
    requires forall id <- b.mapInfo :: Mirrored(b, Filled(e, hash, b', Save(hash, b)), id)
    ensures a in b.mapAddr
  {
    var f := Filled(e, hash, b', Save(hash, b));
    assert AddrIndexed(f, a);
    var id := ImageOnto(e, hash, b, b', f.mapAddr[a]);
    assert Mirrored(b, f, id) && IdIndexed(b, id);
  }

  lemma AllMirrored(e: Env, hash: seq<bool> -> nat, b: Book, b': Book)
    requires Inv(e, b) && b'.asmap == b.asmap
    ensures forall id <- b.mapInfo :: Mirrored(b, Filled(e, hash, b', Save(hash, b)), id)
  {
    forall id | id in b.mapInfo ensures Mirrored(b, Filled(e, hash, b', Save(hash, b)), id) {
      if b.mapInfo[id].fInTried { TriedMirrored(e, hash, b, b', id); } else { NewMirrored(e, hash, b, b', id); }
    }
  }

  lemma NothingPruned(e: Env, hash: seq<bool> -> nat, b: Book, b': Book)
    requires Inv(e, b) && b'.asmap == b.asmap
    ensures Load(e, hash, b', Save(hash, b)) == Filled(e, hash, b', Save(hash, b))
  {
    var f := Filled(e, hash, b', Save(hash, b));
    FilledOk(e, hash, b', Save(hash, b));
    NothingLost(e, hash, b, b');
    PruneNothing(f, Counting(f.nIdCount));
  }

  lemma SameContents(e: Env, b: Book, f: Book)
    requires Inv(e, b) && Inv(e, f) && f.mapAddr.Keys <= b.mapAddr.Keys
    requires forall id <- b.mapInfo :: Mirrored(b, f, id)
    ensures Contents(f) == Contents(b)
  {
    forall a | a in b.mapAddr
      ensures a in Contents(f) && a in Contents(b) && Contents(f)[a] == Contents(b)[a]
    {
      assert AddrIndexed(b, a);
      MirrorContents(e, b, f, a);
    }
  }

  /** Main result: what was saved is accepted and comes back, entry by entry and slot by slot, under new ids. */
  lemma LoadInvertsSave(e: Env, hash: seq<bool> -> nat, b: Book, b': Book)
    requires Inv(e, b) && b'.asmap == b.asmap
    ensures Accepted(Save(hash, b))
    ensures var f := Load(e, hash, b', Save(hash, b));
            Inv(e, f) && Contents(f) == Contents(b) && f.nKey == b.nKey
  {
    SaveAccepted(e, hash, b);
    SaveSound(e, hash, b);
    LoadKeeps(e, hash, b', Save(hash, b));
    NothingLost(e, hash, b, b');
    NothingPruned(e, hash, b, b');
    AllMirrored(e, hash, b, b');
    var f := Filled(e, hash, b', Save(hash, b));
    forall a | a in f.mapAddr ensures a in b.mapAddr { KnownBefore(e, hash, b, b', a); }
    SameContents(e, b, f);
  }
}
