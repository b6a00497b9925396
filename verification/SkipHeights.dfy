/** The skip heights of src/chain.cpp:131-143, and how many steps the walk over them takes (lines 145-170). */
module SkipHeights {
  import opened Limbs

  // ---------------------------------------------------------------- skip heights

  /** Bitwise and of two naturals, bit by bit. */
  function And(x: nat, y: nat): nat {
    if x == 0 || y == 0 then 0
    else 2 * And(x / 2, y / 2) + if x % 2 == 1 && y % 2 == 1 then 1 else 0
  }

  function LowestOne(n: nat): nat
    requires n > 0
  {
    if n % 2 == 1 then 1 else 2 * LowestOne(n / 2)
  }

  function InvertLowestOne(n: nat): nat {
    if n == 0 then 0 else And(n, n - 1)
  }

  lemma {:induction false} AndSelf(x: nat)
    ensures And(x, x) == x
  {
    if x > 0 { AndSelf(x / 2); }
  }

  /** The trick clears exactly the lowest set bit. */
  lemma {:induction false} InvertsLowestOne(n: nat)
    requires n > 0
    ensures 0 < LowestOne(n) <= n && InvertLowestOne(n) == n - LowestOne(n)
  {
    if n % 2 == 1 {
      assert (n - 1) / 2 == n / 2;
      if n > 1 { AndSelf(n / 2); }
    } else {
      assert (n - 1) / 2 == n / 2 - 1;
      InvertsLowestOne(n / 2);
    }
  }

  function SkipHeight(height: nat): nat {
    if height < 2 then 0
    else if height % 2 == 1 then InvertLowestOne(InvertLowestOne(height - 1)) + 1
    else InvertLowestOne(height)
  }

  lemma SkipsBack(height: nat)
    requires height > 0
    ensures SkipHeight(height) < height
  {
    if height >= 2 {
      if height % 2 == 1 {
        InvertsLowestOne(height - 1);
        var m := InvertLowestOne(height - 1);
        if m > 0 { InvertsLowestOne(m); }
      } else {
        InvertsLowestOne(height);
      }
    }
  }

  // ---------------------------------------------------------------- trailing zeros

  /** The number of zeros at the end of n in binary. */
  function Zeros(n: nat): nat
    requires n > 0
  {
    if n % 2 == 1 then 0 else 1 + Zeros(n / 2)
  }

  lemma {:induction false} LowestIs(n: nat)
    requires n > 0
    ensures LowestOne(n) == Pow2(Zeros(n))
  {
    if n % 2 == 0 { LowestIs(n / 2); }
  }

  /** Without its lowest one a number ends in more zeros. */
  lemma {:induction false} MoreZeros(n: nat)
    requires n > 0
    ensures Pow2(Zeros(n)) <= n && (n > Pow2(Zeros(n)) ==> Zeros(n - Pow2(Zeros(n))) > Zeros(n))
  {
    if n % 2 == 0 { MoreZeros(n / 2); }
  }

  lemma {:induction false} ZerosFit(n: nat, l: nat)
    requires 0 < n < Pow2(l)
    ensures Zeros(n) < l
  {
    if n % 2 == 0 { ZerosFit(n / 2, l - 1); }
  }

  /** A multiple of 2^k. */
  predicate Aligned(n: nat, k: nat) { n == 0 || Zeros(n) >= k }

  /** Ones from bit i up to bit k - 1, behind a multiple of 2^k. */
  lemma {:induction false} OnesZeros(base: nat, k: nat, i: nat)
    requires i < k && Aligned(base, k)
    ensures Pow2(i) < Pow2(k) && Zeros(base + Pow2(k) - Pow2(i)) == i
  {
    Pow2Grows(i, k);
    if i > 0 {
      OnesZeros(base / 2, k - 1, i - 1);
      assert (base + Pow2(k) - Pow2(i)) / 2 == base / 2 + Pow2(k - 1) - Pow2(i - 1);
    }
  }

  /** The multiple of 2^k before a given one. */
  lemma {:induction false} AlignedBefore(h: nat, k: nat)
    requires h > 0 && Zeros(h) >= k
    ensures Pow2(k) <= h && Aligned(h - Pow2(k), k)
  {
    if k > 0 { AlignedBefore(h / 2, k - 1); }
  }

  lemma ClearsLowest(n: nat)
    requires n > 0
    ensures Pow2(Zeros(n)) <= n && InvertLowestOne(n) == n - Pow2(Zeros(n))
  {
    InvertsLowestOne(n);
    LowestIs(n);
  }

  lemma SkipEven(h: nat)
    requires h > 0 && Zeros(h) >= 1
    ensures Pow2(Zeros(h)) <= h && SkipHeight(h) == h - Pow2(Zeros(h))
  {
    ClearsLowest(h);
  }

  lemma SkipOdd(g: nat)
    requires g > 0 && Zeros(g) >= 1
    ensures Pow2(Zeros(g)) <= g
    ensures var r := g - Pow2(Zeros(g));
            if r == 0 then SkipHeight(g + 1) == 1
            else Zeros(r) > Zeros(g) && Pow2(Zeros(r)) <= r && SkipHeight(g + 1) == r - Pow2(Zeros(r)) + 1
  {
    OddHeight(g);
    ClearsLowest(g);
    MoreZeros(g);
    var r := g - Pow2(Zeros(g));
    if r > 0 { ClearsLowest(r); }
  }

  lemma OddHeight(g: nat)
    requires g > 0 && g % 2 == 0
    ensures SkipHeight(g + 1) == InvertLowestOne(InvertLowestOne(g)) + 1
  {
  }

  /** The last digits of an even number. */
  lemma Tail(h: nat) returns (y: nat)
    requires h > 0 && Zeros(h) >= 1
    ensures if Zeros(h) == 1 then h == 4 * y + 2 else if Zeros(h) == 2 then h == 8 * y + 4 else h == 8 * y
  {
    var a := h / 2;
    assert h == 2 * a;
    if a % 2 == 1 {
      y := a / 2;
    } else {
      var b := a / 2;
      assert a == 2 * b && Zeros(a) == 1 + Zeros(b);
      y := b / 2;
    }
  }

  // ---------------------------------------------------------------- the walk

  /** One turn of the loop at height h, on the way to height t. */
  function Next(h: nat, t: nat): (r: nat)
    requires t < h
    ensures t <= r < h
  {
    SkipsBack(h);
    var s, sp := SkipHeight(h), SkipHeight(h - 1);
    if s == t || (s > t && !(sp < s - 2 && sp >= t)) then s else h - 1
  }

  /** The number of turns from height h to height t. */
  function Steps(h: nat, t: nat): nat
    requires t <= h
    decreases h
  {
    if h == t then 0 else 1 + Steps(Next(h, t), t)
  }

  lemma OneTurn(h: nat, t: nat, s: nat, sp: nat)
    requires t < h && s == SkipHeight(h) && sp == SkipHeight(h - 1)
    ensures s < h && Steps(h, t) == 1 + Steps(if s == t || (s > t && !(sp < s - 2 && sp >= t)) then s else h - 1, t)
  {
    SkipsBack(h);
  }

  lemma {:induction false} StepsGap(h: nat, t: nat)
    requires t <= h
    ensures Steps(h, t) <= h - t
    decreases h
  {
    if h > t { StepsGap(Next(h, t), t); }
  }

  lemma ByParent(h: nat, t: nat)
    requires t < h && SkipHeight(h) < t
    ensures Steps(h, t) == 1 + Steps(h - 1, t)
  {
  }

  lemma BySkip(h: nat, t: nat, s: nat)
    requires t <= s < h && SkipHeight(h) == s && (SkipHeight(h - 1) < t || SkipHeight(h - 1) + 2 >= s)
    ensures Steps(h, t) == 1 + Steps(s, t)
  {
  }

  /** Turns enough for a target less than 2^k below a multiple of 2^k. */
  function Blocked(k: nat): nat {
    if k == 0 then 0 else if k == 1 then 1 else if k == 2 then 3 else if k == 3 then 5 else Blocked(k - 1) + (k + 3) / 2
  }

  lemma {:induction false} BlockedGrows(j: nat, k: nat)
    requires j <= k
    ensures Blocked(j) + (k - j) <= Blocked(k)
    decreases k
  {
    if j < k { BlockedGrows(j, k - 1); }
  }

  /** A multiple of eight has no use for its predecessor's skip pointer. */
  lemma SkipBeforeEight(g: nat)
    requires g > 0 && Zeros(g) >= 3
    ensures g >= 8 && SkipHeight(g - 1) == g - 7 && SkipHeight(g - 2) == g - 4 && SkipHeight(g - 3) <= g - 7
    ensures Pow2(Zeros(g)) >= 8
  {
    var y := Tail(g);
    EightBack(y - 1);
    SmallPowers();
    Pow2Grows(3, Zeros(g));
  }

  lemma EightBack(y: nat)
    ensures SkipHeight(8 * y + 7) == 8 * y + 1 && SkipHeight(8 * y + 6) == 8 * y + 4 && SkipHeight(8 * y + 5) <= 8 * y + 1
  {
    Zeros1(2 * y + 1);
    Zeros2(y);
    SkipOdd(8 * y + 6);
    SkipEven(8 * y + 6);
    SkipOdd(8 * y + 4);
  }

  lemma Zeros1(y: nat)
    ensures Zeros(4 * y + 2) == 1 && Pow2(1) == 2
  {
    assert (4 * y + 2) / 2 == 2 * y + 1;
  }

  lemma Zeros2(y: nat)
    ensures Zeros(8 * y + 4) == 2 && Pow2(2) == 4
  {
    Zeros1(y);
    assert (8 * y + 4) / 2 == 4 * y + 2;
  }

  lemma SmallPowers()
    ensures Pow2(0) == 1 && Pow2(1) == 2 && Pow2(2) == 4 && Pow2(3) == 8
  {
  }

  lemma Zeros3(y: nat)
    requires y > 0
    ensures Zeros(8 * y) >= 3 && Pow2(Zeros(8 * y)) >= 8
  {
    assert 8 * y / 2 == 4 * y && 4 * y / 2 == 2 * y && 2 * y / 2 == y;
    assert Zeros(8 * y) == 1 + Zeros(4 * y) && Zeros(4 * y) == 1 + Zeros(2 * y);
    SmallPowers();
    Pow2Grows(3, Zeros(8 * y));
  }

  // ---------------------------------------------------------------- targets below a multiple of 2^k

  /** The target lies less than 2^k below h, a multiple of 2^k. */
  lemma {:induction false} BlockedSteps(h: nat, k: nat, t: nat)
    requires h > 0 && Zeros(h) >= k && h < t + Pow2(k) && t <= h
    ensures Steps(h, t) <= Blocked(k)
    decreases k, k
  {
    if t < h && k > 0 {
      SmallPowers();
      if k <= 2 {
        StepsGap(h, t);
      } else if k == 3 {
        BlockedByEight(h, t);
      } else {
        StepsDown(h, k, t);
        AlignedBefore(h, k);
        OddRun(h - Pow2(k), k, 1, t);
      }
    }
  }

  /** Right above the target's block the skip pointer leads too far. */
  lemma StepsDown(h: nat, k: nat, t: nat)
    requires h > 0 && Zeros(h) >= k > 0 && t < h < t + Pow2(k)
    ensures Steps(h, t) == 1 + Steps(h - 1, t)
  {
    SkipEven(h);
    SmallPowers();
    Pow2Grows(k, Zeros(h));
    ByParent(h, t);
  }

  lemma BlockedByEight(h: nat, t: nat)
    requires h > 0 && Zeros(h) >= 3 && t < h < t + 8
    ensures Steps(h, t) <= 5
  {
    if h - t <= 5 {
      StepsGap(h, t);
    } else {
      SkipBeforeEight(h);
      StepsDown(h, 3, t);
      if h - t == 7 {
        OneSkip(h - 1, t);
      } else {
        ByParent(h - 1, t);
        BySkip(h - 2, t, h - 4);
        StepsGap(h - 4, t);
      }
    }
  }

  /** On the odd line, with the ones below bit i cleared. */
  lemma {:induction false} OddRun(base: nat, k: nat, i: nat, t: nat)
    requires Aligned(base, k) && (i == 1 || i >= 3) && i <= k && k >= 2 && Pow2(i) <= Pow2(k)
    requires base < t <= base + Pow2(k) - Pow2(i) + 1
    ensures 2 * Steps(base + Pow2(k) - Pow2(i) + 1, t) <= k - i + 2 + 2 * Blocked(k - 1)
    decreases k, k - i
  {
    var g := base + Pow2(k) - Pow2(i);
    if t == g + 1 {
      assert Steps(g + 1, t) == 0;
    } else if i == k - 1 {
      OddTop(base, k, g, t);
    } else {
      OddSkips(base, k, i);
      if base + Pow2(k) - Pow2(i + 2) + 1 >= t {
        OddGoes(base, k, i, g, t);
      } else {
        OddStops(base, k, i, g, t);
      }
    }
  }

  lemma {:induction false} OddGoes(base: nat, k: nat, i: nat, g: nat, t: nat)
    requires Aligned(base, k) && 1 <= i && i + 2 <= k && g == base + Pow2(k) - Pow2(i)
    requires Pow2(i + 2) <= Pow2(k) && base < t <= base + Pow2(k) - Pow2(i + 2) + 1 && t <= g + 1
    ensures 2 * Steps(g + 1, t) <= k - i + 2 + 2 * Blocked(k - 1)
    decreases k, k - i - 1
  {
    var s := base + Pow2(k) - Pow2(i + 2) + 1;
    OddRun(base, k, i + 2, t);
    OddSkips(base, k, i);
    SkipCosts(g + 1, t, s, k - i + 2 * Blocked(k - 1));
  }

  lemma SkipCosts(h: nat, t: nat, s: nat, n: nat)
    requires t <= s < h && SkipHeight(h) == s && SkipHeight(h - 1) + 2 >= s && 2 * Steps(s, t) <= n
    ensures 2 * Steps(h, t) <= n + 2
  {
    BySkip(h, t, s);
  }

  lemma {:induction false} OddStops(base: nat, k: nat, i: nat, g: nat, t: nat)
    requires Aligned(base, k) && (i == 1 || i >= 3) && i + 2 <= k && g == base + Pow2(k) - Pow2(i)
    requires Pow2(i + 2) <= Pow2(k) && base + Pow2(k) - Pow2(i + 2) + 1 < t <= g
    ensures 2 * Steps(g + 1, t) <= k - i + 2 + 2 * Blocked(k - 1)
    decreases k, 1
  {
    OddSkips(base, k, i);
    ByParent(g + 1, t);
    EvenAfter(base, k, i, g, t);
    RoomLeft(k, i, Steps(g + 1, t));
  }

  lemma RoomLeft(k: nat, i: nat, n: nat)
    requires i + 2 <= k && n <= 2 + Blocked(i + 1)
    ensures 2 * n <= k - i + 2 + 2 * Blocked(k - 1)
  {
    BlockedGrows(i + 1, k - 1);
  }

  /** Two more bits are cleared on the odd line. */
  lemma OddSkips(base: nat, k: nat, i: nat)
    requires Aligned(base, k) && 1 <= i && i + 2 <= k
    ensures Pow2(i) < Pow2(i + 2) <= Pow2(k)
    ensures var g, s := base + Pow2(k) - Pow2(i), base + Pow2(k) - Pow2(i + 2) + 1;
            s <= g && SkipHeight(g + 1) == s && SkipHeight(g) + 2 >= s
  {
    var g := base + Pow2(k) - Pow2(i);
    OnesZeros(base, k, i);
    OnesZeros(base, k, i + 1);
    Pow2Grows(i, i + 2);
    Pow2Grows(i + 2, k);
    OddSkipIs(g, i, g - Pow2(i), i + 1);
  }

  lemma OddSkipIs(g: nat, i: nat, r: nat, j: nat)
    requires g > 0 && r > 0 && Zeros(g) == i >= 1 && r == g - Pow2(i) && Zeros(r) == j
    ensures SkipHeight(g) == r && SkipHeight(g + 1) == r - Pow2(j) + 1
  {
    SkipOdd(g);
    SkipEven(g);
  }

  /** Only the top bit of the block is left. */
  lemma {:induction false} OddTop(base: nat, k: nat, g: nat, t: nat)
    requires Aligned(base, k) && k >= 2 && g == base + Pow2(k - 1) && base < t <= g
    ensures Steps(g + 1, t) <= 1 + Blocked(k - 1)
    decreases k, 0
  {
    OnesZeros(base, k, k - 1);
    TopSkipIs(g, k - 1, base);
    if t == 1 {
      BySkip(g + 1, t, 1);
    } else {
      ByParent(g + 1, t);
      BlockedSteps(g, k - 1, t);
    }
  }

  lemma TopSkipIs(g: nat, i: nat, base: nat)
    requires g > 0 && Zeros(g) == i >= 1 && g == base + Pow2(i)
    ensures SkipHeight(g) == base && SkipHeight(g + 1) <= (if base == 0 then 1 else base) && g % 2 == 0
    ensures base == 0 ==> SkipHeight(g + 1) == 1
  {
    SkipOdd(g);
    SkipEven(g);
  }

  /** The odd line leads too far: down to the even one, which clears one more bit. */
  lemma {:induction false} EvenAfter(base: nat, k: nat, i: nat, g: nat, t: nat)
    requires Aligned(base, k) && (i == 1 || i >= 3) && i + 2 <= k && g == base + Pow2(k) - Pow2(i)
    requires base + Pow2(k) - Pow2(i + 2) + 1 < t <= g
    ensures Steps(g, t) <= 1 + Blocked(i + 1)
    decreases k, 0
  {
    OnesZeros(base, k, i);
    OnesZeros(base, k, i + 1);
    if g - Pow2(i) < t {
      BlockedSteps(g, i, t);
      BlockedGrows(i, i + 1);
    } else {
      EvenSkips(g, i, t);
      BlockedSteps(g - Pow2(i), i + 1, t);
    }
  }

  /** Here the predecessor's skip pointer is no better. */
  lemma EvenSkips(g: nat, i: nat, t: nat)
    requires g > 0 && Zeros(g) == i && (i == 1 || i >= 3) && g >= Pow2(i) && t <= g - Pow2(i)
    requires g > Pow2(i) && Zeros(g - Pow2(i)) == i + 1 && g < t + Pow2(i) + Pow2(i + 1) - 1
    ensures Steps(g, t) == 1 + Steps(g - Pow2(i), t)
  {
    SkipEven(g);
    if i == 1 {
      SmallPowers();
      SkipOdd(g - 2);
    } else {
      SkipBeforeEight(g);
    }
    BySkip(g, t, g - Pow2(i));
  }

  // ---------------------------------------------------------------- all targets

  /** Turns enough for any target from below 2^l. */
  function StepBound(l: nat): nat
    requires l > 0
  {
    Blocked(l - 1) + if l - 4 >= l / 2 + 2 then l - 4 else l / 2 + 2
  }

  lemma BlockedLow(h: nat, t: nat, l: nat)
    requires 0 < h < Pow2(l) && t <= h < t + Pow2(Zeros(h))
    ensures Steps(h, t) <= Blocked(l - 1)
  {
    ZerosFit(h, l);
    BlockedSteps(h, Zeros(h), t);
    BlockedGrows(Zeros(h), l - 1);
  }

  /** From a multiple of eight one bit after the other is cleared. */
  lemma {:induction false} FromEight(h: nat, t: nat, l: nat)
    requires 0 < h < Pow2(l) && Zeros(h) >= 3 && t <= h
    ensures Zeros(h) <= l - 1 && Steps(h, t) <= l - 1 - Zeros(h) + Blocked(l - 1)
    decreases h
  {
    ZerosFit(h, l);
    SkipEven(h);
    var s := h - Pow2(Zeros(h));
    if s < t {
      BlockedLow(h, t, l);
    } else {
      SkipBeforeEight(h);
      BySkip(h, t, s);
      if s == 0 {
        BlockedGrows(3, l - 1);
      } else {
        MoreZeros(h);
        FromEight(s, t, l);
      }
    }
  }

  /** Where the odd line leads too far, two turns lead to a block with the target in it. */
  lemma OddLands(g: nat, t: nat, l: nat)
    requires 0 < g < Pow2(l) && Zeros(g) >= 1 && t <= g && SkipHeight(g + 1) < t
    ensures Steps(g + 1, t) <= 2 + Blocked(l - 1)
  {
    ByParent(g + 1, t);
    EvenLands(g, t, l);
  }

  lemma EvenLands(g: nat, t: nat, l: nat)
    requires 0 < g < Pow2(l) && Zeros(g) >= 1 && t <= g && SkipHeight(g + 1) < t
    ensures Steps(g, t) <= 1 + Blocked(l - 1)
  {
    SkipOdd(g);
    SkipEven(g);
    var r := g - Pow2(Zeros(g));
    if r < t {
      BlockedLow(g, t, l);
    } else {
      NoBetter(g, t);
      BySkip(g, t, r);
      BlockedLow(r, t, l);
    }
  }

  /** The predecessor's skip pointer is no better than one that the odd line has refused. */
  lemma NoBetter(g: nat, t: nat)
    requires 0 < g && Zeros(g) >= 1 && t <= SkipHeight(g) && SkipHeight(g + 1) < t
    ensures SkipHeight(g - 1) < t || SkipHeight(g - 1) + 2 >= SkipHeight(g)
  {
    var y := Tail(g);
    if Zeros(g) == 1 {
      ShortTwo(y);
    } else if Zeros(g) == 2 {
      ShortFour(y);
      FourLater(y);
    } else {
      SkipEven(g);
      SkipBeforeEight(g);
    }
  }

  lemma FourLater(y: nat)
    ensures SkipHeight(8 * y + 3) <= SkipHeight(8 * y + 5)
  {
    Zeros1(2 * y);
    Zeros2(y);
    SkipOdd(8 * y + 2);
    SkipOdd(8 * y + 4);
  }

  lemma ShortTwo(y: nat)
    ensures SkipHeight(4 * y + 2) == 4 * y && (y > 0 ==> SkipHeight(4 * y + 1) + 2 < 4 * y)
    ensures y > 0 ==> SkipHeight(4 * y + 1) <= SkipHeight(4 * y + 3)
  {
    Zeros1(y);
    SkipEven(4 * y + 2);
    if y > 0 {
      FourZeros(y);
      TwoSkips(4 * y);
      SkipOdd(4 * y);
      SkipOdd(4 * y + 2);
    }
  }

  lemma FourZeros(y: nat)
    requires y > 0
    ensures Zeros(4 * y) >= 2
  {
    assert 4 * y / 2 == 2 * y && 2 * y / 2 == y;
    assert Zeros(4 * y) == 1 + Zeros(2 * y);
  }

  lemma ShortFour(y: nat)
    ensures SkipHeight(8 * y + 4) == 8 * y
    ensures y > 0 ==> Pow2(Zeros(8 * y)) <= 8 * y && SkipHeight(8 * y + 3) == 8 * y - Pow2(Zeros(8 * y)) + 1
    ensures y > 0 ==> SkipHeight(8 * y + 3) + 2 < 8 * y
  {
    Zeros2(y);
    SkipEven(8 * y + 4);
    if y > 0 {
      Zeros1(2 * y);
      Zeros3(y);
      SkipOdd(8 * y + 2);
    }
  }

  lemma TwoSkips(g: nat)
    requires g > 0 && Zeros(g) >= 2
    ensures SkipHeight(g + 1) + 2 < g && Pow2(Zeros(g)) <= g
  {
    SkipOdd(g);
    SmallPowers();
    Pow2Grows(2, Zeros(g));
  }

  /** Along the odd line two bits are cleared at a time. */
  lemma {:induction false} FromOdd(g: nat, t: nat, l: nat)
    requires 0 < g < Pow2(l) && Zeros(g) >= 1 && t <= g + 1
    ensures Zeros(g) <= l - 1 && 2 * Steps(g + 1, t) <= l - 1 - Zeros(g) + 4 + 2 * Blocked(l - 1)
    decreases g
  {
    ZerosFit(g, l);
    SkipOdd(g);
    SkipEven(g);
    var s := SkipHeight(g + 1);
    if t == g + 1 {
      assert Steps(g + 1, t) == 0;
    } else if s < t {
      OddLands(g, t, l);
    } else {
      BySkip(g + 1, t, s);
      if s == 1 {
        StepsGap(1, t);
      } else {
        TwoMoreZeros(g);
        FromOdd(s - 1, t, l);
      }
    }
  }

  lemma TwoMoreZeros(g: nat)
    requires 0 < g && Zeros(g) >= 1 && SkipHeight(g + 1) > 1
    ensures var r := SkipHeight(g + 1) - 1;
            r < g && Zeros(r) >= Zeros(g) + 2
  {
    SkipOdd(g);
    MoreZeros(g - Pow2(Zeros(g)));
  }

  lemma FromTwo(y: nat, t: nat, l: nat)
    requires 4 * y + 2 < Pow2(l) && t <= 4 * y + 2
    ensures Steps(4 * y + 2, t) <= l / 2 + 2 + Blocked(l - 1)
  {
    var h := 4 * y + 2;
    ShortTwo(y);
    Zeros1(y);
    if 4 * y < t {
      BlockedLow(h, t, l);
    } else if 4 * y == t {
      OneSkip(h, t);
    } else if SkipHeight(h - 1) < t {
      BySkip(h, t, 4 * y);
      FourZeros(y);
      EvenLands(4 * y, t, l);
    } else {
      ByBetter(h, t);
      FourZeros(y);
      FromOdd(4 * y, t, l);
    }
  }

  lemma FromFour(y: nat, t: nat, l: nat)
    requires 8 * y + 4 < Pow2(l) && t <= 8 * y + 4
    ensures Steps(8 * y + 4, t) <= l / 2 + 2 + Blocked(l - 1)
  {
    var h := 8 * y + 4;
    ShortFour(y);
    Zeros2(y);
    if 8 * y < t {
      BlockedLow(h, t, l);
    } else if 8 * y == t {
      OneSkip(h, t);
    } else if SkipHeight(h - 1) < t {
      BySkip(h, t, 8 * y);
      BlockedLow(8 * y, t, l);
    } else {
      ByBetter(h, t);
      Zeros1(2 * y);
      FromOdd(8 * y + 2, t, l);
    }
  }

  lemma OneSkip(h: nat, t: nat)
    requires t < h && SkipHeight(h) == t
    ensures Steps(h, t) == 1
  {
    assert Steps(t, t) == 0;
  }

  lemma ByBetter(h: nat, t: nat)
    requires t < h && t <= SkipHeight(h - 1) && SkipHeight(h - 1) + 2 < SkipHeight(h)
    ensures Steps(h, t) == 1 + Steps(h - 1, t)
  {
  }

  lemma HalfFits(l: nat, n: nat)
    requires l > 1 && 2 * n <= l + 2 + 2 * Blocked(l - 1)
    ensures n <= StepBound(l)
  {
  }

  /** Main result: from below 2^l the walk takes at most StepBound(l) turns. */
  lemma StepsBounded(h: nat, t: nat, l: nat)
    requires l > 0 && h < Pow2(l) && t <= h
    ensures Steps(h, t) <= StepBound(l)
  {
    if h <= 1 {
      StepsGap(h, t);
    } else if h % 2 == 1 {
      FromOdd(h - 1, t, l);
      HalfFits(l, Steps(h, t));
    } else {
      var y := Tail(h);
      if Zeros(h) == 1 { FromTwo(y, t, l); }
      else if Zeros(h) == 2 { FromFour(y, t, l); }
      else { FromEight(h, t, l); }
    }
  }

  /** What the comment in the source found in simulations. */
  lemma SimulatedBound(h: nat, t: nat)
    requires t <= h < 0x4_0000
    ensures Steps(h, t) <= 110
  {
    Pow2Add(8, 10);
    assert Pow2(8) == 256 && Pow2(10) == 1024;
    StepsBounded(h, t, 18);
    assert Blocked(8) == 26 && Blocked(12) == 52 && Blocked(17) == 96;
  }

  /** The bound is quadratic in the number of binary digits. */
  lemma {:induction false} BlockedQuadratic(k: nat)
    ensures 4 * Blocked(k) <= k * k + 7 * k
  {
    if k > 3 {
      BlockedQuadratic(k - 1);
      assert (k - 1) * (k - 1) == k * k - 2 * k + 1;
    }
  }

  lemma BoundQuadratic(l: nat)
    requires l > 0
    ensures 4 * StepBound(l) <= l * l + 9 * l + 2
  {
    BlockedQuadratic(l - 1);
    assert (l - 1) * (l - 1) == l * l - 2 * l + 1;
  }
}
