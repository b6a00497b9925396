/**
 * Where Unserialize (src/addrman.h:524-593) puts the entries of the new table, told from the stream alone: back into the
 * saved buckets if bucket count and AS map are the same, and otherwise where each entry's own source says.
 */
module AddrReload {
  import opened AddrBook
  import opened AddrDisk
  import opened AddrEffects

  /** The stream was saved with 1024 buckets under the AS map of the manager that loads it. */
  predicate SameBucketing(hash: seq<bool> -> nat, asmap: seq<bool>, d: Disk) {
    && |d.buckets| == 1024
    && (if d.format < 2 then 0 else d.asmapChecksum) == (if |asmap| == 0 then 0 else hash(asmap))
  }

  /** A reference of the stream: number v of bucket u, to an entry of the new table. */
  predicate IsRef(d: Disk, u: int, v: int) {
    0 <= u < |d.buckets| && 0 <= v < |d.buckets[u]| && 0 <= d.buckets[u][v] < |d.newEntries|
  }

  function Target(d: Disk, u: int, v: int): Entry
    requires IsRef(d, u, v)
  {
    d.newEntries[d.buckets[u][v]]
  }

  /** The slot that an entry's own source gives it, and the one it was saved in. */
  function OwnSlot(e: Env, b: Book, x: Entry): Slot { SlotFor(e, b, x.addr.svc, x.source) }
  function SavedSlot(e: Env, b: Book, u: int, x: Entry): Slot { Slot(u, e.posHash(b.nKey, true, u, x.addr.svc) % 64) }

  predicate Earlier(u: int, v: int, u': int, v': int) { u < u' || (u == u' && v < v') }

  // ----- the references in the order they are read

  /** r comes from a place before bucket u, number v. */
  ghost predicate ReadBefore(d: Disk, r: Ref, u: int, v: int) {
    exists i, j :: IsRef(d, i, j) && Earlier(i, j, u, v) && r == Ref(i, d.buckets[i][j])
  }

  lemma {:induction false} BucketSplit(d: Disk, u: int, n: nat, v: int) returns (k: nat)
    requires 0 <= u < |d.buckets| && 0 <= v < n <= |d.buckets[u]| && IsRef(d, u, v)
    ensures var rs := BucketRefs(u, d.buckets[u][..n], |d.newEntries|);
            k < |rs| && rs[k] == Ref(u, d.buckets[u][v]) && forall j :: 0 <= j < k ==> ReadBefore(d, rs[j], u, v)
  {
    var m := n - 1;
    assert d.buckets[u][..n][..m] == d.buckets[u][..m];
    if v < m {
      k := BucketSplit(d, u, m, v);
    } else {
      k := |BucketRefs(u, d.buckets[u][..m], |d.newEntries|)|;
      BucketBefore(d, u, m, v);
    }
  }

  lemma {:induction false} BucketBefore(d: Disk, u: int, n: nat, v: int)
    requires 0 <= u < |d.buckets| && n <= |d.buckets[u]| && n <= v
    ensures forall r <- BucketRefs(u, d.buckets[u][..n], |d.newEntries|) :: ReadBefore(d, r, u, v)
  {
    if n > 0 {
      assert d.buckets[u][..n][..n - 1] == d.buckets[u][..n - 1];
      BucketBefore(d, u, n - 1, v);
      if 0 <= d.buckets[u][n - 1] < |d.newEntries| { assert IsRef(d, u, n - 1) && Earlier(u, n - 1, u, v); }
    }
  }

  lemma {:induction false} BucketsBefore(d: Disk, n: nat, u: int, v: int)
    requires n <= |d.buckets| && n <= u
    ensures forall r <- AllRefs(d.buckets[..n], |d.newEntries|) :: ReadBefore(d, r, u, v)
  {
    if n > 0 {
      assert d.buckets[..n][..n - 1] == d.buckets[..n - 1];
      BucketsBefore(d, n - 1, u, v);
      var w := n - 1;
      BucketBefore(d, w, |d.buckets[w]|, |d.buckets[w]|);
      assert d.buckets[w][..|d.buckets[w]|] == d.buckets[w];
      forall r | r in BucketRefs(w, d.buckets[w], |d.newEntries|) ensures ReadBefore(d, r, u, v) {
        var i, j :| IsRef(d, i, j) && Earlier(i, j, w, |d.buckets[w]|) && r == Ref(i, d.buckets[i][j]);
        assert Earlier(i, j, u, v);
      }
    }
  }

  /** Every reference is read, after exactly those that stand before it. */
  lemma {:induction false} RefsSplit(d: Disk, n: nat, u: int, v: int) returns (k: nat)
    requires IsRef(d, u, v) && u < n <= |d.buckets|
    ensures var rs := AllRefs(d.buckets[..n], |d.newEntries|);
            k < |rs| && rs[k] == Ref(u, d.buckets[u][v]) && forall j :: 0 <= j < k ==> ReadBefore(d, rs[j], u, v)
  {
    var m := n - 1;
    assert d.buckets[..n][..m] == d.buckets[..m];
    var front := AllRefs(d.buckets[..m], |d.newEntries|);
    if u < m {
      k := RefsSplit(d, m, u, v);
    } else {
      BucketsBefore(d, m, u, v);
      assert d.buckets[u][..|d.buckets[u]|] == d.buckets[u];
      var i := BucketSplit(d, u, |d.buckets[u]|, v);
      k := |front| + i;
    }
  }

  // ----- what stays the same while references are read, and when the rest is pruned

  lemma {:induction false} RefsKeepKey(e: Env, b: Book, rs: seq<Ref>, restore: bool)
    ensures var c := LoadRefs(e, b, rs, restore); c.nKey == b.nKey && c.asmap == b.asmap
  {
    if rs != [] { RefsKeepKey(e, b, rs[..|rs| - 1], restore); }
  }

  lemma {:induction false} PruneKeepsSlots(b: Book, ids: seq<int>)
    requires Placed(b)
    ensures var c := Prune(b, ids); c.vvNew == b.vvNew && c.nKey == b.nKey && c.asmap == b.asmap
  {
    if ids != [] { PruneKeepsSlots(b, ids[..|ids| - 1]); }
  }

  predicate Within(given: map<Slot, int>, all: map<Slot, int>) {
    forall s <- given :: s in all && all[s] == given[s]
  }

  /** Slots once given stay given. */
  lemma {:induction false} SlotsStay(e: Env, b: Book, rs: seq<Ref>, k: nat, restore: bool)
    requires k <= |rs|
    ensures Within(LoadRefs(e, b, rs[..k], restore).vvNew, LoadRefs(e, b, rs, restore).vvNew)
    decreases |rs|
  {
    if k < |rs| {
      var n := |rs| - 1;
      assert rs[..n][..k] == rs[..k];
      SlotsStay(e, b, rs[..n], k, restore);
    } else {
      assert rs[..k] == rs;
    }
  }

  lemma LoadSlots(e: Env, hash: seq<bool> -> nat, b: Book, d: Disk)
    ensures var f, l := Filled(e, hash, b, d), Load(e, hash, b, d);
            l.vvNew == f.vvNew && l.nKey == f.nKey == d.nKey && l.asmap == f.asmap == b.asmap
    ensures Entries(e, b, d).vvNew == map[] && Entries(e, b, d).nKey == d.nKey && Entries(e, b, d).asmap == b.asmap
  {
    FilledOk(e, hash, b, d);
    EntriesOk(e, b, d);
    var f := Filled(e, hash, b, d);
    RefsKeepKey(e, Entries(e, b, d), AllRefs(d.buckets, |d.newEntries|), Restores(hash, b.asmap, d));
    PruneKeepsSlots(f, Counting(f.nIdCount));
  }

  // ----- other bucket count or other AS map

  /** Every slot is the one its holder's own source gives it. */
  ghost predicate OwnOnly(e: Env, c: Book, xs: seq<Entry>, n: nat)
    requires n <= |xs|
  {
    forall s <- c.vvNew :: 0 <= c.vvNew[s] < n && s == OwnSlot(e, c, xs[c.vvNew[s]])
  }

  lemma OwnStep(e: Env, c: Book, d: Book, xs: seq<Entry>, n: nat, r: Ref)
    requires n <= |xs| && RefsLoaded(e, c, d, n) && ReadIn(c, xs) && OwnOnly(e, c, xs, n) && 0 <= r.index < n
    ensures var c', own := LoadRef(e, c, r, false), OwnSlot(e, c, xs[r.index]);
            && c'.vvNew == (if e.valid(xs[r.index].addr.svc.ip) && own !in c.vvNew then c.vvNew[own := r.index] else c.vvNew)
            && c'.nKey == c.nKey && c'.asmap == c.asmap && OwnOnly(e, c', xs, n)
  {
    assert ReadAt(c, xs, r.index);
    var info, own := c.mapInfo[r.index], OwnSlot(e, c, xs[r.index]);
    assert info.addr == xs[r.index].addr && info.source == xs[r.index].source;
    assert own == NewSlot(e, c, info, info.source);
    assert Settled(e, c, r.index, Below(n));
    assert SlotsOf(c.vvNew, r.index) <= {own};
    AtMostOne(SlotsOf(c.vvNew, r.index), own);
  }

  lemma AtMostOne<T>(a: set<T>, x: T)
    requires a <= {x}
    ensures |a| <= 1
  {
    if x in a { assert a == {x}; } else { assert a == {}; }
  }

  /** After the first k references: own slots only, each held on behalf of one of these references. */
  lemma {:induction false} OwnRefs(e: Env, b: Book, d: Disk, k: nat)
    requires k <= |AllRefs(d.buckets, |d.newEntries|)|
    ensures var rs, n, xs := AllRefs(d.buckets, |d.newEntries|), |d.newEntries|, Kept(e, b, d);
            var c := LoadRefs(e, Entries(e, b, d), rs[..k], false);
            && RefsLoaded(e, c, Entries(e, b, d), n) && ReadIn(c, xs) && OwnOnly(e, c, xs, n)
            && c.nKey == d.nKey && c.asmap == b.asmap
            && forall s <- c.vvNew :: exists j :: 0 <= j < k && rs[j].index == c.vvNew[s] && e.valid(xs[rs[j].index].addr.svc.ip)
  {
    var rs, n, xs := AllRefs(d.buckets, |d.newEntries|), |d.newEntries|, Kept(e, b, d);
    RefsReady(e, b, d, k, false);
    if k > 0 {
      OwnRefs(e, b, d, k - 1);
      var c := LoadRefs(e, Entries(e, b, d), rs[..k - 1], false);
      assert rs[..k][..k - 1] == rs[..k - 1] && rs[k - 1] in rs;
      AllRefsInRange(d.buckets, n);
      OwnStep(e, c, Entries(e, b, d), xs, n, rs[k - 1]);
    }
  }

  lemma RefsReady(e: Env, b: Book, d: Disk, k: nat, restore: bool)
    requires k <= |AllRefs(d.buckets, |d.newEntries|)| && (restore ==> |d.buckets| == NEW_BUCKET_COUNT)
    ensures var rs := AllRefs(d.buckets, |d.newEntries|);
            var c := LoadRefs(e, Entries(e, b, d), rs[..k], restore);
            && RefsLoaded(e, c, Entries(e, b, d), |d.newEntries|) && ReadIn(c, Kept(e, b, d))
            && c.nKey == d.nKey && c.asmap == b.asmap
    ensures Entries(e, b, d).vvNew == map[]
  {
    var rs, n := AllRefs(d.buckets, |d.newEntries|), |d.newEntries|;
    EntriesOk(e, b, d);
    EntriesReady(e, b, d);
    AllRefsInRange(d.buckets, n);
    LoadRefsOk(e, Entries(e, b, d), n, rs[..k], restore);
    EntriesReadIn(e, b, d);
    RefsReadIn(e, Entries(e, b, d), Kept(e, b, d), rs[..k], restore);
    RefsKeepKey(e, Entries(e, b, d), rs[..k], restore);
  }

  lemma EntriesReadIn(e: Env, b: Book, d: Disk)
    ensures ReadIn(Entries(e, b, d), Kept(e, b, d))
  {
    var news := LoadNews(Clear(b, d.nKey), d.newEntries);
    NewsReadIn(b, d.nKey, d.newEntries);
    TriedsReadIn(e, news, d.newEntries, d.triedEntries);
    KeptDepends(e, news, Clear(b, d.nKey), d.triedEntries);
  }

  /** The first valid entry, in reading order, to claim its slot. */
  ghost predicate FirstFor(e: Env, l: Book, d: Disk, u: int, v: int) {
    && IsRef(d, u, v) && e.valid(Target(d, u, v).addr.svc.ip)
    && forall i, j :: IsRef(d, i, j) && Earlier(i, j, u, v) && e.valid(Target(d, i, j).addr.svc.ip) ==>
         OwnSlot(e, l, Target(d, i, j)) != OwnSlot(e, l, Target(d, u, v))
  }

  /** Nobody has the slot before the first that claims it. */
  lemma FirstIsFree(e: Env, b: Book, d: Disk, l: Book, u: int, v: int, k: nat)
    requires l.nKey == d.nKey && l.asmap == b.asmap && FirstFor(e, l, d, u, v)
    requires var rs := AllRefs(d.buckets, |d.newEntries|); k < |rs| && forall j :: 0 <= j < k ==> ReadBefore(d, rs[j], u, v)
    ensures OwnSlot(e, l, Target(d, u, v)) !in LoadRefs(e, Entries(e, b, d), AllRefs(d.buckets, |d.newEntries|)[..k], false).vvNew
  {
    var rs, xs := AllRefs(d.buckets, |d.newEntries|), Kept(e, b, d);
    OwnRefs(e, b, d, k);
    AllRefsInRange(d.buckets, |d.newEntries|);
    var c, own := LoadRefs(e, Entries(e, b, d), rs[..k], false), OwnSlot(e, l, Target(d, u, v));
    forall j | 0 <= j < k && e.valid(xs[rs[j].index].addr.svc.ip) ensures OwnSlot(e, l, xs[rs[j].index]) != own {
      assert ReadBefore(d, rs[j], u, v);
    }
  }

  /** Reading reference k leaves its entry's slot taken, by itself if it was free. */
  lemma ClaimAt(e: Env, b: Book, d: Disk, k: nat)
    requires k < |AllRefs(d.buckets, |d.newEntries|)|
    ensures var rs, es := AllRefs(d.buckets, |d.newEntries|), Entries(e, b, d);
            && 0 <= rs[k].index < |d.newEntries|
            && var c, c', x := LoadRefs(e, es, rs[..k], false), LoadRefs(e, es, rs[..k + 1], false), d.newEntries[rs[k].index];
               e.valid(x.addr.svc.ip) ==>
                 && OwnSlot(e, c, x) in c'.vvNew && (OwnSlot(e, c, x) !in c.vvNew ==> c'.vvNew[OwnSlot(e, c, x)] == rs[k].index)
                 && c.nKey == d.nKey && c.asmap == b.asmap
  {
    var rs, n := AllRefs(d.buckets, |d.newEntries|), |d.newEntries|;
    OwnRefs(e, b, d, k);
    AllRefsInRange(d.buckets, n);
    assert rs[k] in rs;
    OwnStep(e, LoadRefs(e, Entries(e, b, d), rs[..k], false), Entries(e, b, d), Kept(e, b, d), n, rs[k]);
    assert rs[..k + 1][..k] == rs[..k];
  }

  lemma ClaimMet(e: Env, hash: seq<bool> -> nat, b: Book, d: Disk, u: int, v: int)
    requires !SameBucketing(hash, b.asmap, d) && IsRef(d, u, v) && e.valid(Target(d, u, v).addr.svc.ip)
    ensures var l := Load(e, hash, b, d);
            var own := OwnSlot(e, l, Target(d, u, v));
            own in l.vvNew && (FirstFor(e, l, d, u, v) ==> l.vvNew[own] == d.buckets[u][v])
  {
    var rs, l := AllRefs(d.buckets, |d.newEntries|), Load(e, hash, b, d);
    assert d.buckets[..|d.buckets|] == d.buckets;
    var k := RefsSplit(d, |d.buckets|, u, v);
    ClaimAt(e, b, d, k);
    LoadSlots(e, hash, b, d);
    SlotsStay(e, Entries(e, b, d), rs, k + 1, false);
    if FirstFor(e, l, d, u, v) { FirstIsFree(e, b, d, l, u, v, k); }
  }

  /** Main result for another bucket count or another AS map: whatever buckets were saved, an entry sits in the one slot
      of its own source or in none, each slot that a valid entry claims is taken, and the first to claim it has it. */
  lemma Rebucketed(e: Env, hash: seq<bool> -> nat, b: Book, d: Disk)
    requires !SameBucketing(hash, b.asmap, d)
    ensures var l := Load(e, hash, b, d);
            && l.nKey == d.nKey && l.asmap == b.asmap
            && (forall s <- l.vvNew :: 0 <= l.vvNew[s] < |d.newEntries| && s == OwnSlot(e, l, d.newEntries[l.vvNew[s]]))
            && (forall u, v :: IsRef(d, u, v) && e.valid(Target(d, u, v).addr.svc.ip) ==> OwnSlot(e, l, Target(d, u, v)) in l.vvNew)
            && (forall u, v :: FirstFor(e, l, d, u, v) ==>
                  OwnSlot(e, l, Target(d, u, v)) in l.vvNew && l.vvNew[OwnSlot(e, l, Target(d, u, v))] == d.buckets[u][v])
  {
    var l := Load(e, hash, b, d);
    OwnSlotsOnly(e, hash, b, d);
    forall u, v | IsRef(d, u, v) && e.valid(Target(d, u, v).addr.svc.ip)
      ensures OwnSlot(e, l, Target(d, u, v)) in l.vvNew
      ensures FirstFor(e, l, d, u, v) ==> l.vvNew[OwnSlot(e, l, Target(d, u, v))] == d.buckets[u][v]
    {
      ClaimMet(e, hash, b, d, u, v);
    }
  }

  lemma OwnSlotsOnly(e: Env, hash: seq<bool> -> nat, b: Book, d: Disk)
    requires !SameBucketing(hash, b.asmap, d)
    ensures var l := Load(e, hash, b, d);
            && l.nKey == d.nKey && l.asmap == b.asmap
            && forall s <- l.vvNew :: 0 <= l.vvNew[s] < |d.newEntries| && s == OwnSlot(e, l, d.newEntries[l.vvNew[s]])
  {
    var rs := AllRefs(d.buckets, |d.newEntries|);
    LoadSlots(e, hash, b, d);
    OwnRefs(e, b, d, |rs|);
    assert rs[..|rs|] == rs;
  }

  // ----- same bucket count and same AS map

  /** The references read before the k-th have given these slots. */
  function Given(e: Env, b: Book, d: Disk, k: nat): map<Slot, int>
    requires k <= |AllRefs(d.buckets, |d.newEntries|)|
  {
    LoadRefs(e, Entries(e, b, d), AllRefs(d.buckets, |d.newEntries|)[..k], true).vvNew
  }

  lemma SavedStep(e: Env, b: Book, d: Disk, k: nat)
    requires k < |AllRefs(d.buckets, |d.newEntries|)| && |d.buckets| == 1024
    ensures var r := AllRefs(d.buckets, |d.newEntries|)[k];
            && 0 <= r.index < |d.newEntries|
            && var x, given := d.newEntries[r.index], Given(e, b, d, k);
               var s := Slot(r.bucket, e.posHash(d.nKey, true, r.bucket, x.addr.svc) % 64);
               e.valid(x.addr.svc.ip) && |SlotsOf(given, r.index)| < 8 && s !in given ==> Given(e, b, d, k + 1) == given[s := r.index]
  {
    var rs, n, xs := AllRefs(d.buckets, |d.newEntries|), |d.newEntries|, Kept(e, b, d);
    RefsReady(e, b, d, k, true);
    AllRefsInRange(d.buckets, n);
    assert rs[k] in rs && rs[..k + 1][..k] == rs[..k];
    var c, r := LoadRefs(e, Entries(e, b, d), rs[..k], true), rs[k];
    assert ReadAt(c, xs, r.index) && Settled(e, c, r.index, Below(n));
  }

  lemma GivenStays(e: Env, hash: seq<bool> -> nat, b: Book, d: Disk, k: nat)
    requires SameBucketing(hash, b.asmap, d) && k <= |AllRefs(d.buckets, |d.newEntries|)|
    ensures Load(e, hash, b, d).nKey == d.nKey && Within(Given(e, b, d, k), Load(e, hash, b, d).vvNew)
    ensures k == |AllRefs(d.buckets, |d.newEntries|)| ==> Load(e, hash, b, d).vvNew == Given(e, b, d, k)
  {
    var rs := AllRefs(d.buckets, |d.newEntries|);
    LoadSlots(e, hash, b, d);
    assert Restores(hash, b.asmap, d);
    SlotsStay(e, Entries(e, b, d), rs, k, Restores(hash, b.asmap, d));
    assert rs[..|rs|] == rs;
  }

  /** A valid entry with less than eight slots gets the slot it was saved in if that is free when it is read. */
  lemma SavedTaken(e: Env, hash: seq<bool> -> nat, b: Book, d: Disk, u: int, v: int) returns (k: nat)
    requires SameBucketing(hash, b.asmap, d) && IsRef(d, u, v) && e.valid(Target(d, u, v).addr.svc.ip)
    ensures var rs := AllRefs(d.buckets, |d.newEntries|);
            k < |rs| && rs[k] == Ref(u, d.buckets[u][v]) && forall j :: 0 <= j < k ==> ReadBefore(d, rs[j], u, v)
    ensures var l, given := Load(e, hash, b, d), Given(e, b, d, k);
            var s := SavedSlot(e, l, u, Target(d, u, v));
            |SlotsOf(given, d.buckets[u][v])| < 8 && s !in given ==> s in l.vvNew && l.vvNew[s] == d.buckets[u][v]
  {
    assert d.buckets[..|d.buckets|] == d.buckets;
    k := RefsSplit(d, |d.buckets|, u, v);
    SavedStep(e, b, d, k);
    GivenStays(e, hash, b, d, k + 1);
    var l, given := Load(e, hash, b, d), Given(e, b, d, k);
    var s := SavedSlot(e, l, u, Target(d, u, v));
    if |SlotsOf(given, d.buckets[u][v])| < 8 && s !in given {
      assert s in Given(e, b, d, k + 1);
    }
  }

  /** The slots that entry i was saved in. */
  ghost function SavedSlots(e: Env, l: Book, d: Disk, i: int): set<Slot> {
    set u, v | 0 <= u < |d.buckets| && 0 <= v < |d.buckets[u]| && IsRef(d, u, v) && d.buckets[u][v] == i ::
      SavedSlot(e, l, u, d.newEntries[d.buckets[u][v]])
  }

  /** All entries are valid, none is in more than eight slots, and no slot is claimed by two entries, as in every
      stream that a manager writes. */
  ghost predicate Unclashing(e: Env, l: Book, d: Disk) {
    && (forall u, v :: IsRef(d, u, v) ==> e.valid(Target(d, u, v).addr.svc.ip))
    && (forall i :: |SavedSlots(e, l, d, i)| <= 8)
    && (forall u, v, x, y :: IsRef(d, u, v) && IsRef(d, x, y) && (u != x || v != y) ==>
          SavedSlot(e, l, u, Target(d, u, v)) != SavedSlot(e, l, x, Target(d, x, y)))
  }

  lemma {:induction false} BucketPlace(d: Disk, u: int, n: nat, k: nat) returns (v: int)
    requires 0 <= u < |d.buckets| && n <= |d.buckets[u]| && k < |BucketRefs(u, d.buckets[u][..n], |d.newEntries|)|
    ensures var rs := BucketRefs(u, d.buckets[u][..n], |d.newEntries|);
            v < n && IsRef(d, u, v) && rs[k] == Ref(u, d.buckets[u][v]) && forall j :: 0 <= j < k ==> ReadBefore(d, rs[j], u, v)
  {
    var m := n - 1;
    assert d.buckets[u][..n][..m] == d.buckets[u][..m];
    var front := BucketRefs(u, d.buckets[u][..m], |d.newEntries|);
    if k < |front| {
      v := BucketPlace(d, u, m, k);
    } else {
      v := m;
      BucketBefore(d, u, m, v);
    }
  }

  /** Every reference read has its place, behind all those read before. */
  lemma {:induction false} RefPlace(d: Disk, n: nat, k: nat) returns (u: int, v: int)
    requires n <= |d.buckets| && k < |AllRefs(d.buckets[..n], |d.newEntries|)|
    ensures var rs := AllRefs(d.buckets[..n], |d.newEntries|);
            u < n && IsRef(d, u, v) && rs[k] == Ref(u, d.buckets[u][v]) && forall j :: 0 <= j < k ==> ReadBefore(d, rs[j], u, v)
  {
    var m := n - 1;
    assert d.buckets[..n][..m] == d.buckets[..m];
    var front := AllRefs(d.buckets[..m], |d.newEntries|);
    if k < |front| {
      u, v := RefPlace(d, m, k);
    } else {
      u := m;
      assert d.buckets[u][..|d.buckets[u]|] == d.buckets[u];
      v := BucketPlace(d, u, |d.buckets[u]|, k - |front|);
      BucketsBefore(d, m, u, v);
    }
  }

  function SlotOfRef(e: Env, l: Book, d: Disk, r: Ref): Slot {
    if 0 <= r.index < |d.newEntries| then SavedSlot(e, l, r.bucket, d.newEntries[r.index]) else Slot(0, 0)
  }

  /** The slots given are those of the references read. */
  ghost predicate GivenIs(e: Env, l: Book, d: Disk, given: map<Slot, int>, rs: seq<Ref>) {
    && (forall s <- given :: exists j :: 0 <= j < |rs| && s == SlotOfRef(e, l, d, rs[j]) && given[s] == rs[j].index)
    && (forall j :: 0 <= j < |rs| ==> SlotOfRef(e, l, d, rs[j]) in given && given[SlotOfRef(e, l, d, rs[j])] == rs[j].index)
  }

  /** The next reference finds its slot free, and its entry with slots to spare. */
  lemma NextIsFree(e: Env, l: Book, d: Disk, given: map<Slot, int>, k: nat)
    requires k < |AllRefs(d.buckets, |d.newEntries|)| && Unclashing(e, l, d)
    requires GivenIs(e, l, d, given, AllRefs(d.buckets, |d.newEntries|)[..k])
    ensures var r := AllRefs(d.buckets, |d.newEntries|)[k];
            && 0 <= r.index < |d.newEntries| && e.valid(d.newEntries[r.index].addr.svc.ip)
            && SlotOfRef(e, l, d, r) !in given && |SlotsOf(given, r.index)| < 8
  {
    var rs := AllRefs(d.buckets, |d.newEntries|);
    assert d.buckets[..|d.buckets|] == d.buckets;
    var u, v := RefPlace(d, |d.buckets|, k);
    var i, slot := d.buckets[u][v], SlotOfRef(e, l, d, rs[k]);
    assert e.valid(Target(d, u, v).addr.svc.ip);
    forall j | 0 <= j < k ensures SlotOfRef(e, l, d, rs[j]) != slot && SlotOfRef(e, l, d, rs[j]) in SavedSlots(e, l, d, rs[j].index) {
      assert ReadBefore(d, rs[j], u, v);
      var x, y :| IsRef(d, x, y) && Earlier(x, y, u, v) && rs[j] == Ref(x, d.buckets[x][y]);
      assert SlotOfRef(e, l, d, rs[j]) == SavedSlot(e, l, x, Target(d, x, y));
    }
    var held, saved := SlotsOf(given, i), SavedSlots(e, l, d, i);
    assert slot in saved;
    forall s | s in held ensures s in saved && s != slot { }
    FewerThan(held, saved, slot);
  }

  lemma FewerThan<T>(a: set<T>, b: set<T>, x: T)
    requires x in b && x !in a && a <= b
    ensures |a| < |b|
  {
    SubsetCard(a, b - {x});
  }

  lemma {:induction false} SubsetCard<T>(a: set<T>, b: set<T>)
    requires a <= b
    ensures |a| <= |b|
    decreases a
  {
    if a != {} {
      var x :| x in a;
      SubsetCard(a - {x}, b - {x});
    }
  }

  lemma NextGiven(e: Env, b: Book, d: Disk, l: Book, k: nat)
    requires k < |AllRefs(d.buckets, |d.newEntries|)| && |d.buckets| == 1024 && Unclashing(e, l, d) && l.nKey == d.nKey
    requires GivenIs(e, l, d, Given(e, b, d, k), AllRefs(d.buckets, |d.newEntries|)[..k])
    ensures var r, given := AllRefs(d.buckets, |d.newEntries|)[k], Given(e, b, d, k);
            SlotOfRef(e, l, d, r) !in given && Given(e, b, d, k + 1) == given[SlotOfRef(e, l, d, r) := r.index]
  {
    NextIsFree(e, l, d, Given(e, b, d, k), k);
    SavedStep(e, b, d, k);
  }

  lemma NoneGiven(e: Env, b: Book, d: Disk)
    ensures Given(e, b, d, 0) == map[]
  {
    EntriesOk(e, b, d);
  }

  lemma {:induction false} AllGiven(e: Env, b: Book, d: Disk, l: Book, k: nat)
    requires k <= |AllRefs(d.buckets, |d.newEntries|)| && |d.buckets| == 1024 && Unclashing(e, l, d) && l.nKey == d.nKey
    ensures GivenIs(e, l, d, Given(e, b, d, k), AllRefs(d.buckets, |d.newEntries|)[..k])
  {
    if k == 0 {
      NoneGiven(e, b, d);
    } else {
      AllGiven(e, b, d, l, k - 1);
      NextGiven(e, b, d, l, k - 1);
      NextIs(e, l, d, Given(e, b, d, k - 1), Given(e, b, d, k), k - 1);
    }
  }

  lemma NextIs(e: Env, l: Book, d: Disk, given: map<Slot, int>, more: map<Slot, int>, k: nat)
    requires k < |AllRefs(d.buckets, |d.newEntries|)| && GivenIs(e, l, d, given, AllRefs(d.buckets, |d.newEntries|)[..k])
    requires var r := AllRefs(d.buckets, |d.newEntries|)[k];
             SlotOfRef(e, l, d, r) !in given && more == given[SlotOfRef(e, l, d, r) := r.index]
    ensures GivenIs(e, l, d, more, AllRefs(d.buckets, |d.newEntries|)[..k + 1])
  {
    var rs := AllRefs(d.buckets, |d.newEntries|);
    GivenMore(e, l, d, given, rs[..k], rs[k]);
    assert rs[..k] + [rs[k]] == rs[..k + 1];
  }

  lemma GivenMore(e: Env, l: Book, d: Disk, given: map<Slot, int>, rs: seq<Ref>, r: Ref)
    requires GivenIs(e, l, d, given, rs) && SlotOfRef(e, l, d, r) !in given
    ensures GivenIs(e, l, d, given[SlotOfRef(e, l, d, r) := r.index], rs + [r])
  {
    var t := rs + [r];
    assert t[|rs|] == r;
    forall s | s in given ensures exists j :: 0 <= j < |t| && s == SlotOfRef(e, l, d, t[j]) && given[s] == t[j].index {
      var j :| 0 <= j < |rs| && s == SlotOfRef(e, l, d, rs[j]) && given[s] == rs[j].index;
      assert t[j] == rs[j];
    }
  }

  /** Every reference sits in its saved slot, and no other slot is taken. */
  ghost predicate InSavedSlots(e: Env, l: Book, d: Disk, held: map<Slot, int>) {
    && (forall u, v :: IsRef(d, u, v) ==>
          SavedSlot(e, l, u, Target(d, u, v)) in held && held[SavedSlot(e, l, u, Target(d, u, v))] == d.buckets[u][v])
    && (forall s <- held :: exists u, v :: IsRef(d, u, v) && s == SavedSlot(e, l, u, Target(d, u, v)))
  }

  lemma AllPlaces(e: Env, l: Book, d: Disk, held: map<Slot, int>)
    requires GivenIs(e, l, d, held, AllRefs(d.buckets, |d.newEntries|))
    ensures InSavedSlots(e, l, d, held)
  {
    var rs := AllRefs(d.buckets, |d.newEntries|);
    assert d.buckets[..|d.buckets|] == d.buckets;
    forall u, v | IsRef(d, u, v)
      ensures SavedSlot(e, l, u, Target(d, u, v)) in held && held[SavedSlot(e, l, u, Target(d, u, v))] == d.buckets[u][v]
    {
      var k := RefsSplit(d, |d.buckets|, u, v);
      assert SlotOfRef(e, l, d, rs[k]) == SavedSlot(e, l, u, Target(d, u, v));
    }
    forall s | s in held ensures exists u, v :: IsRef(d, u, v) && s == SavedSlot(e, l, u, Target(d, u, v)) {
      var k :| 0 <= k < |rs| && s == SlotOfRef(e, l, d, rs[k]) && held[s] == rs[k].index;
      var u, v := RefPlace(d, |d.buckets|, k);
      assert s == SavedSlot(e, l, u, Target(d, u, v));
    }
  }

  /** Main result for the same bucket count and AS map: where no two references clash, every entry is back in exactly the
      slots it was saved in. */
  lemma SavedRestored(e: Env, hash: seq<bool> -> nat, b: Book, d: Disk)
    requires SameBucketing(hash, b.asmap, d) && Unclashing(e, Load(e, hash, b, d), d)
    ensures InSavedSlots(e, Load(e, hash, b, d), d, Load(e, hash, b, d).vvNew)
  {
    var rs, l := AllRefs(d.buckets, |d.newEntries|), Load(e, hash, b, d);
    GivenStays(e, hash, b, d, |rs|);
    AllGiven(e, b, d, l, |rs|);
    assert rs[..|rs|] == rs;
    AllPlaces(e, l, d, l.vvNew);
  }

  /** The header: which streams are refused, and what is written. */
  lemma HeaderExact(hash: seq<bool> -> nat, b: Book, d: Disk)
    requires d.compat < 256
    ensures Accepted(d) <==> 32 <= d.compat <= 35 && |d.newEntries| <= 65536 && |d.triedEntries| <= 16384
    ensures var s := Save(hash, b);
            && s.format == 3 && s.compat == 35 && s.nKey == b.nKey && |s.buckets| == 1024
            && s.asmapChecksum == if |b.asmap| == 0 then 0 else hash(b.asmap)
  {
  }
}
