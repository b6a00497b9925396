/**
 * The block index with its skip pointers and the active chain of src/chain.{h,cpp}.  A block's parent and height
 * are fixed when it is linked in; the skip pointer is filled in afterwards by BuildSkip.
 */
module Chain {
  import opened Basics
  import opened SkipHeights
  import L = Limbs

  // ---------------------------------------------------------------- blocks

  class BlockIndex {
    const hash: nat
    const pprev: BlockIndex?
    const nHeight: int
    var pskip: BlockIndex?

    /** Link a new block under its parent and build its skip pointer. */
    constructor (hash: nat, pprev: BlockIndex?)
      requires pprev != null ==> Rooted(pprev) && SkipsOk(pprev)
      ensures this.hash == hash && this.pprev == pprev
      ensures Rooted(this) && SkipsOk(this) && SkipExact(this)
      ensures nHeight == if pprev == null then 0 else pprev.nHeight + 1
    {
      this.hash, this.pprev := hash, pprev;
      nHeight := if pprev == null then 0 else pprev.nHeight + 1;
      pskip := null;
      new;
      if pprev != null { AncestryBelow(pprev); }
      BuildSkip();
    }

    /** Lines 177-181. */
    method BuildSkip()
      requires Rooted(this) && SkipsOk(this)
      modifies this
      ensures SkipsOk(this) && SkipExact(this)
    {
      if pprev != null {
        SkipsBack(nHeight);
        var skip, _ := GetAncestor(pprev, SkipHeight(nHeight));
        AncestryBelow(pprev);
        assert this !in Ancestry(pprev) && SkipsOk(pprev);
        pskip := skip;
        assert SkipsOk(pprev) && SkipExact(this);
      }
    }
  }

  /** Heights count the steps to the genesis block. */
  ghost predicate Rooted(b: BlockIndex)
    decreases b.nHeight
  {
    b.nHeight >= 0 &&
    if b.nHeight == 0 then b.pprev == null
    else b.pprev != null && b.pprev.nHeight == b.nHeight - 1 && Rooted(b.pprev)
  }

  /** The ancestor at height h, found by walking from parent to parent. */
  ghost function Walk(b: BlockIndex, h: nat): (a: BlockIndex)
    requires Rooted(b) && h <= b.nHeight
    ensures Rooted(a) && a.nHeight == h
    decreases b.nHeight
  {
    if b.nHeight == h then b else Walk(b.pprev, h)
  }

  lemma {:induction false} WalkWalk(b: BlockIndex, i: nat, h: nat)
    requires Rooted(b) && h <= i <= b.nHeight
    ensures Walk(Walk(b, i), h) == Walk(b, h)
    decreases b.nHeight
  {
    if b.nHeight > i { WalkWalk(b.pprev, i, h); }
  }

  ghost function Ancestry(b: BlockIndex): set<BlockIndex>
    requires Rooted(b)
    decreases b.nHeight
  {
    {b} + if b.pprev == null then {} else Ancestry(b.pprev)
  }

  /** Every skip pointer at or below b is unset or leads to the ancestor at the skip height. */
  ghost predicate SkipsOk(b: BlockIndex)
    requires Rooted(b)
    reads Ancestry(b)
    decreases b.nHeight
  {
    && (b.pskip == null || SkipExact(b))
    && (b.pprev == null || SkipsOk(b.pprev))
  }

  ghost predicate SkipExact(b: BlockIndex)
    requires Rooted(b)
    reads b
  {
    b.pskip == if b.nHeight == 0 then null else SkipsBack(b.nHeight); Walk(b, SkipHeight(b.nHeight))
  }

  lemma {:induction false} AncestryBelow(b: BlockIndex)
    requires Rooted(b)
    ensures forall a <- Ancestry(b) :: a.nHeight <= b.nHeight
    decreases b.nHeight
  {
    if b.pprev != null { AncestryBelow(b.pprev); }
  }

  lemma {:induction false} WalkSkipsOk(b: BlockIndex, h: nat)
    requires Rooted(b) && SkipsOk(b) && h <= b.nHeight
    ensures SkipsOk(Walk(b, h))
    decreases b.nHeight
  {
    if b.nHeight > h { WalkSkipsOk(b.pprev, h); }
  }

  /** No block at or below b but the first is without its skip pointer. */
  ghost predicate AllSet(b: BlockIndex)
    requires Rooted(b)
    reads Ancestry(b)
    decreases b.nHeight
  {
    b.nHeight == 0 || (b.pskip != null && AllSet(b.pprev))
  }

  lemma {:induction false} WalkAllSet(b: BlockIndex, h: nat)
    requires Rooted(b) && AllSet(b) && h <= b.nHeight
    ensures AllSet(Walk(b, h))
    decreases b.nHeight
  {
    if b.nHeight > h { WalkAllSet(b.pprev, h); }
  }

  /** Lines 145-170: skip pointers where they help, parents elsewhere; the result is that of the plain walk.  Once all
      skip pointers are set it takes the turns counted by Steps, which StepsBounded bounds. */
  method GetAncestor(b: BlockIndex, height: int) returns (r: BlockIndex?, ghost turns: nat)
    requires Rooted(b) && SkipsOk(b)
    ensures r == if 0 <= height <= b.nHeight then Walk(b, height) else null
    ensures SkipsOk(b) && (r != null ==> SkipsOk(r))
    ensures AllSet(b) && r != null ==> turns == Steps(b.nHeight, height)
  {
    turns := 0;
    if height > b.nHeight || height < 0 {
      return null, turns;
    }
    var walk: BlockIndex, heightWalk: nat := b, b.nHeight;
    while heightWalk > height
      invariant SkipsOk(b) && Rooted(walk) && SkipsOk(walk) && walk.nHeight == heightWalk >= height
      invariant Walk(walk, height) == Walk(b, height)
      invariant AllSet(b) ==> AllSet(walk) && turns + Steps(heightWalk, height) == Steps(b.nHeight, height)
    {
      turns := turns + 1;
      SkipsBack(heightWalk);
      var heightSkip := SkipHeight(heightWalk);
      var heightSkipPrev := SkipHeight(heightWalk - 1);
      OneTurn(heightWalk, height, heightSkip, heightSkipPrev);
      if walk.pskip != null &&
         (heightSkip == height ||
          (heightSkip > height && !(heightSkipPrev < heightSkip - 2 && heightSkipPrev >= height))) {
        WalkWalk(walk, heightSkip, height);
        WalkSkipsOk(walk, heightSkip);
        if AllSet(walk) { WalkAllSet(walk, heightSkip); }
        walk := walk.pskip;
        heightWalk := heightSkip;
      } else {
        walk := walk.pprev;
        heightWalk := heightWalk - 1;
      }
    }
    return walk, turns;
  }

  // ---------------------------------------------------------------- the tree

  /** Blocks linked one at a time, each under a block already present or as a genesis block. */
  class BlockTree {
    var blocks: set<BlockIndex>

    ghost predicate Valid()
      reads this, blocks
    {
      forall b <- blocks :: Rooted(b) && Ancestry(b) <= blocks && SkipExact(b)
    }

    constructor ()
      ensures Valid() && blocks == {}
    {
      blocks := {};
    }

    method Link(hash: nat, pprev: BlockIndex?) returns (b: BlockIndex)
      requires Valid() && (pprev != null ==> pprev in blocks)
      modifies this
      ensures Valid() && blocks == old(blocks) + {b} && fresh(b) && b.hash == hash && b.pprev == pprev
    {
      if pprev != null { AllExact(pprev, blocks); }
      b := new BlockIndex(hash, pprev);
      blocks := blocks + {b};
    }
  }

  /** Exact skip pointers throughout a closed set of blocks. */
  lemma {:induction false} AllExact(b: BlockIndex, blocks: set<BlockIndex>)
    requires Rooted(b) && Ancestry(b) <= blocks && forall a <- blocks :: Rooted(a) && SkipExact(a)
    ensures SkipsOk(b) && AllSet(b)
    decreases b.nHeight
  {
    if b.pprev != null { AllExact(b.pprev, blocks); }
  }

  // ---------------------------------------------------------------- the active chain

  /** The blocks from genesis to b. */
  ghost function PathTo(b: BlockIndex): (p: seq<BlockIndex?>)
    requires Rooted(b)
    ensures |p| == b.nHeight + 1 && p[b.nHeight] == b
    ensures forall h :: 0 <= h < |p| ==> p[h] == Walk(b, h)
    decreases b.nHeight
  {
    (if b.pprev == null then [] else PathTo(b.pprev)) + [b]
  }

  /** Equal entries at one height mean equal entries below it. */
  lemma PathPrefix(b: BlockIndex, h: nat)
    requires Rooted(b) && h <= b.nHeight
    ensures PathTo(b)[..h + 1] == PathTo(Walk(b, h))
  {
    forall i | 0 <= i <= h ensures PathTo(b)[..h + 1][i] == PathTo(Walk(b, h))[i] {
      WalkWalk(b, h, i);
    }
  }

  /** A vector that holds one path up to where it meets the other, and the other above, holds the other. */
  lemma PathJoined(a: BlockIndex, b: BlockIndex, h: nat, v: seq<BlockIndex?>)
    requires Rooted(a) && Rooted(b) && h <= a.nHeight && h <= b.nHeight && Walk(a, h) == Walk(b, h)
    requires |v| == b.nHeight + 1 && forall i :: 0 <= i <= h ==> v[i] == PathTo(a)[i]
    requires forall i :: h < i <= b.nHeight ==> v[i] == Walk(b, i)
    ensures v == PathTo(b)
  {
    PathPrefix(a, h);
    PathPrefix(b, h);
    forall i | 0 <= i <= h ensures v[i] == PathTo(b)[i] {
      assert PathTo(a)[..h + 1][i] == PathTo(b)[..h + 1][i];
    }
  }

  lemma ParentOnWalk(b: BlockIndex, h: nat)
    requires Rooted(b)
    ensures h <= b.nHeight ==> Walk(b, h).pprev == if h == 0 then null else Walk(b, h - 1)
  {
    if 0 < h <= b.nHeight { WalkWalk(b, h, h - 1); }
  }

  lemma SameBelow(a: BlockIndex, b: BlockIndex, h: nat)
    requires Rooted(a) && Rooted(b) && h <= a.nHeight && h <= b.nHeight && Walk(a, h) == Walk(b, h)
    ensures forall i :: 0 <= i <= h ==> Walk(a, i) == Walk(b, i)
  {
    forall i | 0 <= i <= h ensures Walk(a, i) == Walk(b, i) {
      WalkWalk(a, h, i);
      WalkWalk(b, h, i);
    }
  }

  // ---------------------------------------------------------------- locators

  function Max(a: int, b: int): int { if a < b then b else a }

  /** The heights of a locator from h on, when n hashes are already in and the stride is step. */
  function Heights(h: nat, step: nat, n: nat): (r: seq<nat>)
    requires step > 0
    decreases h
  {
    if h == 0 then [0]
    else [h] + Heights(Max(h - step, 0), if n + 1 > 10 then 2 * step else step, n + 1)
  }

  /** A locator starts at its block, goes strictly down and ends with the genesis block. */
  lemma {:induction false} HeightsDescend(h: nat, step: nat, n: nat)
    requires step > 0
    ensures var r := Heights(h, step, n);
            && |r| > 0 && r[0] == h && r[|r| - 1] == 0
            && forall i, j :: 0 <= i < j < |r| ==> r[i] > r[j]
    decreases h
  {
    if h > 0 {
      HeightsDescend(Max(h - step, 0), if n + 1 > 10 then 2 * step else step, n + 1);
    }
  }

  /** `done` and the heights still to come make up `goal`. */
  ghost predicate Coming(done: seq<nat>, h: nat, step: nat, goal: seq<nat>)
    requires step > 0
  {
    done + Heights(h, step, |done|) == goal
  }

  lemma ComingNext(done: seq<nat>, h: nat, step: nat, goal: seq<nat>)
    requires step > 0 && Coming(done, h, step, goal)
    ensures if h == 0 then done + [h] == goal
            else Coming(done + [h], Max(h - step, 0), if |done| + 1 > 10 then 2 * step else step, goal)
  {
    if h > 0 {
      var rest := Heights(Max(h - step, 0), if |done| + 1 > 10 then 2 * step else step, |done| + 1);
      assert done + ([h] + rest) == (done + [h]) + rest;
    }
  }

  /** Once the stride doubles, one bit of the remaining distance, in strides, goes with every hash. */
  lemma {:induction false} DoublingLength(h: nat, step: nat, n: nat, c: nat)
    requires n >= 10 && step > 0 && h <= c * step && (c > 0 ==> (c - 1) * step < h)
    ensures |Heights(h, step, n)| == 1 + BitLen(c)
    decreases h
  {
    if h == 0 {
      assert c == 0;
    } else {
      HalfStrides(h, step, c);
      DoublingLength(Max(h - step, 0), 2 * step, n + 1, c / 2);
    }
  }

  lemma HalfStrides(h: nat, step: nat, c: nat)
    requires 0 < h <= c * step && (c - 1) * step < h
    ensures Max(h - step, 0) <= c / 2 * (2 * step)
    ensures c / 2 > 0 ==> (c / 2 - 1) * (2 * step) < Max(h - step, 0)
  {
    var k := c / 2;
    assert k * (2 * step) == 2 * k * step;
    if c == 2 * k {
      assert c * step == 2 * k * step;
      assert (2 * k - 1) * step == 2 * k * step - step;
    } else {
      assert (2 * k + 1) * step == 2 * k * step + step;
    }
    assert (k - 1) * (2 * step) == k * (2 * step) - 2 * step;
  }

  /** The exact number of hashes in a locator for height h, as long as n are already in. */
  lemma {:induction false} LocatorLength(h: nat, n: nat)
    requires n <= 10
    ensures |Heights(h, 1, n)| == if h <= 10 - n then h + 1 else 11 - n + BitLen(h - (10 - n))
    decreases h
  {
    if n == 10 {
      DoublingLength(h, 1, n, h);
    } else if h > 0 {
      LocatorLength(h - 1, n + 1);
    }
  }

  /** How far below its block the k-th hash of a locator lies: one step each for the first ten, then doubling steps. */
  function Drop(k: nat): nat { if k <= 10 then k else 9 + L.Pow2(k - 10) }

  lemma Strides(step: nat, p: nat, y: nat)
    requires p > 0 && y == step * (p - 1)
    ensures 2 * step * (p - 1) == 2 * y && step * (2 * p - 1) == step + 2 * y
  {
    assert step * (2 * p - 1) == step * (p - 1) + step * (p - 1) + step;
    assert 2 * step * (p - 1) == 2 * (step * (p - 1));
  }

  lemma {:induction false} DoublingAt(h: nat, step: nat, n: nat, k: nat)
    requires step > 0 && n >= 10 && k < |Heights(h, step, n)|
    ensures Heights(h, step, n)[k] == Max(h - step * (L.Pow2(k) - 1), 0)
    decreases h
  {
    if k > 0 {
      var p := L.Pow2(k - 1);
      var y := step * (p - 1);
      Strides(step, p, y);
      DoublingNext(h, step, n, k);
      DoublingAt(Max(h - step, 0), 2 * step, n + 1, k - 1);
    }
  }

  lemma DoublingNext(h: nat, step: nat, n: nat, k: nat)
    requires step > 0 && n >= 10 && 0 < k < |Heights(h, step, n)|
    ensures k - 1 < |Heights(Max(h - step, 0), 2 * step, n + 1)|
    ensures Heights(h, step, n)[k] == Heights(Max(h - step, 0), 2 * step, n + 1)[k - 1]
  {
  }

  /** Every height in a locator. */
  lemma {:induction false} LocatorAt(h: nat, n: nat, k: nat)
    requires n <= 10 && k < |Heights(h, 1, n)|
    ensures Heights(h, 1, n)[k] == Max(h + n - Drop(n + k), 0)
    decreases h
  {
    if n == 10 {
      DoublingAt(h, 1, n, k);
    } else if k > 0 {
      LocatorAt(h - 1, n + 1, k - 1);
    }
  }

  /** The documented size: a dozen hashes and one per bit of the height. */
  lemma LocatorBound(h: nat)
    ensures |Heights(h, 1, 0)| <= 12 + BitLen(h)
  {
    LocatorLength(h, 0);
    if h > 10 { BitLenGrows(h - 10, h); }
  }

  class CChain {
    var vChain: seq<BlockIndex?>
    ghost var tip: BlockIndex?

    ghost predicate Valid()
      reads this
    {
      if tip == null then vChain == [] else Rooted(tip) && vChain == PathTo(tip)
    }

    constructor ()
      ensures Valid() && tip == null
    {
      vChain, tip := [], null;
    }

    function Height(): int
      reads this
    {
      |vChain| - 1
    }

    function At(h: int): BlockIndex?
      reads this
    {
      if h < 0 || h >= |vChain| then null else vChain[h]
    }

    function Tip(): (r: BlockIndex?)
      requires Valid()
      reads this
      ensures r == tip
    {
      if |vChain| > 0 then vChain[|vChain| - 1] else null
    }

    /** One array read decides membership of the whole chain. */
    predicate Contains(b: BlockIndex)
      requires Valid() && Rooted(b)
      reads this
      ensures Contains(b) <==> b in vChain
      ensures Contains(b) <==> tip != null && b.nHeight <= tip.nHeight && Walk(tip, b.nHeight) == b
    {
      At(b.nHeight) == b
    }

    function Next(b: BlockIndex): (r: BlockIndex?)
      requires Valid() && Rooted(b)
      reads this
      ensures r != null ==> r in vChain && r.pprev == b
      ensures r == null <==> b !in vChain || b == tip
    {
      if Contains(b) then ParentOnWalk(tip, b.nHeight + 1); At(b.nHeight + 1) else null
    }

    /** Lines 36-47: entries are rewritten from the tip down, only until one is already right. */
    method SetTip(p: BlockIndex?)
      requires Valid() && (p != null ==> Rooted(p))
      modifies this
      ensures Valid() && tip == p
    {
      tip := p;
      if p == null {
        vChain := [];
        return;
      }
      ghost var was := vChain;
      vChain := Resized(vChain, p.nHeight + 1);
      var q: BlockIndex? := p;
      while q != null && vChain[q.nHeight] != q
        invariant tip == p && |vChain| == p.nHeight + 1
        invariant q != null ==> Rooted(q) && q.nHeight <= p.nHeight && Walk(p, q.nHeight) == q
        invariant var n := if q == null then -1 else q.nHeight;
                  forall h :: n < h <= p.nHeight ==> vChain[h] == Walk(p, h)
        invariant q != null ==> forall h :: 0 <= h <= q.nHeight ==> vChain[h] == if h < |was| then was[h] else null
        decreases if q == null then -1 else q.nHeight
      {
        vChain := vChain[q.nHeight := q];
        ParentOnWalk(p, q.nHeight);
        q := q.pprev;
      }
      if q != null {
        PathJoined(old(tip), p, q.nHeight, vChain);
      } else {
        assert vChain == PathTo(p);
      }
    }

    /** Lines 78-87: the highest block of this chain among the ancestors of p, or null where there is none. */
    method FindFork(p: BlockIndex?) returns (r: BlockIndex?)
      requires Valid() && (p != null ==> Rooted(p) && SkipsOk(p))
      ensures r != null ==> p != null && Rooted(r) && r in vChain && r.nHeight <= p.nHeight && Walk(p, r.nHeight) == r
      ensures p != null ==> forall h :: 0 <= h <= p.nHeight && Walk(p, h) in vChain ==> r != null && h <= r.nHeight
    {
      if p == null { return null; }
      r := p;
      if p.nHeight > Height() {
        ghost var turns;
        r, turns := GetAncestor(p, Height());
      }
      while r != null && !Contains(r)
        invariant r != null ==> Rooted(r) && r.nHeight <= p.nHeight && Walk(p, r.nHeight) == r
        invariant var n := if r == null then -1 else r.nHeight;
                  forall h :: n < h <= p.nHeight ==> Walk(p, h) !in vChain
        decreases if r == null then -1 else r.nHeight
      {
        ParentOnWalk(p, r.nHeight);
        r := r.pprev;
      }
    }

    /** Lines 63-70: the chain's own index where it applies, skip pointers elsewhere. */
    method StepBack(b: BlockIndex, h: nat) returns (r: BlockIndex)
      requires Valid() && Rooted(b) && SkipsOk(b) && h <= b.nHeight
      ensures r == Walk(b, h) && SkipsOk(r)
    {
      if Contains(b) {
        SameBelow(tip, b, b.nHeight);
        WalkSkipsOk(b, h);
        r := At(h);
      } else {
        ghost var turns;
        r, turns := GetAncestor(b, h);
      }
    }

    /**
     * Lines 49-76; a null block stands for the tip.  The stride, handed back beside the hashes, stays within twice
     * the height, so it fits 32 bits for heights below 2^30.
     */
    method GetLocator(p: BlockIndex?) returns (have: seq<nat>, step: nat)
      requires Valid() && (p != null ==> Rooted(p) && SkipsOk(p)) && (tip != null ==> SkipsOk(tip))
      ensures var b := if p == null then tip else p;
              if b == null then have == []
              else Hashes(b, Heights(b.nHeight, 1, 0), have) && step <= 2 * b.nHeight + 1
    {
      have, step := [], 1;
      var b: BlockIndex? := p;
      if b == null { b := Tip(); }
      if b == null { return; }
      ghost var start: BlockIndex, done: seq<nat> := b, [];
      ghost var goal := Heights(start.nHeight, 1, 0);
      assert done + goal == goal;
      while true
        invariant b != null && Rooted(b) && SkipsOk(b) && b.nHeight <= start.nHeight && Walk(start, b.nHeight) == b
        invariant 0 < step <= 2 * start.nHeight + 1 && (b.nHeight > 0 ==> step <= start.nHeight - b.nHeight + 1)
        invariant Hashes(start, done, have)
        invariant Coming(done, b.nHeight, step, goal)
        decreases b.nHeight
      {
        ComingNext(done, b.nHeight, step, goal);
        HashesMore(start, b, done, have);
        have := have + [b.hash];
        done := done + [b.nHeight];
        if b.nHeight == 0 { break; }
        var h := Max(b.nHeight - step, 0);
        WalkWalk(start, b.nHeight, h);
        b := StepBack(b, h);
        if |have| > 10 {
          step := 2 * step;
        }
      }
    }
  }

  ghost predicate Hashes(b: BlockIndex, hs: seq<nat>, have: seq<nat>)
    requires Rooted(b)
  {
    |have| == |hs| && forall i :: 0 <= i < |hs| ==> hs[i] <= b.nHeight && have[i] == Walk(b, hs[i]).hash
  }

  lemma HashesMore(start: BlockIndex, b: BlockIndex, hs: seq<nat>, have: seq<nat>)
    requires Rooted(start) && Hashes(start, hs, have)
    requires 0 <= b.nHeight <= start.nHeight && Walk(start, b.nHeight) == b
    ensures Hashes(start, hs + [b.nHeight], have + [b.hash])
  {
  }

  /** Comparing heights and tips compares whole chains. */
  predicate SameChain(a: CChain, b: CChain)
    requires a.Valid() && b.Valid()
    reads a, b
    ensures SameChain(a, b) <==> a.vChain == b.vChain
  {
    a.Height() == b.Height() && a.Tip() == b.Tip()
  }

  function Resized(v: seq<BlockIndex?>, n: nat): (r: seq<BlockIndex?>)
    ensures |r| == n && forall h :: 0 <= h < n ==> r[h] == if h < |v| then v[h] else null
  {
    seq(n, h requires 0 <= h < n => if h < |v| then v[h] else null)
  }
}
