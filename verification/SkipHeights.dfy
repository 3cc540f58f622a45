/** The heights skip pointers lead to, and how many steps a walk over them takes. */
module SkipHeights {
  import opened Nonlinear

  /** Bitwise and. */
  function BitAnd(x: nat, y: nat): (r: nat)
    ensures r <= x && r <= y
  {
    if x == 0 || y == 0 then 0
    else (if x % 2 == 1 && y % 2 == 1 then 1 else 0) + 2 * BitAnd(x / 2, y / 2)
  }

  /** n & (n - 1); for n == 0 that is 0 & -1. */
  function InvertLowestOne(n: nat): nat {
    if n == 0 then 0 else BitAnd(n, n - 1)
  }

  lemma {:induction false} AndSelf(n: nat)
    ensures BitAnd(n, n) == n
  {
    if n > 0 { AndSelf(n / 2); }
  }

  lemma AndDouble(h: nat)
    requires h > 0
    ensures InvertLowestOne(2 * h) == 2 * InvertLowestOne(h)
  {
    assert 2 * h / 2 == h && (2 * h - 1) / 2 == h - 1;
  }

  /** It clears the lowest set bit and nothing else. */
  lemma {:induction false} ClearsLowestOne(k: nat, t: nat)
    ensures InvertLowestOne((2 * k + 1) * Pow2(t)) == (2 * k) * Pow2(t)
    decreases t
  {
    if t == 0 {
      AndSelf(k);
      assert Pow2(0) == 1;
      OddCleared(k);
    } else {
      var q := Pow2(t - 1);
      ClearsLowestOne(k, t - 1);
      Doubled(2 * k + 1, q);
      Doubled(2 * k, q);
      AndDouble((2 * k + 1) * q);
    }
  }

  lemma OddCleared(k: nat)
    requires BitAnd(k, k) == k
    ensures InvertLowestOne((2 * k + 1) * 1) == 2 * k * 1
  {
    assert (2 * k + 1) / 2 == k && 2 * k / 2 == k;
  }

  lemma Doubled(a: nat, q: nat)
    requires q > 0
    ensures a * (2 * q) == 2 * (a * q) && a * q >= 0 && (a > 0 ==> a * q > 0)
  {
    MulAssoc(a, 2, q);
    if a > 0 { MulMono(q, 1, a); }
  }

  function GetSkipHeight(height: nat): (r: nat)
    ensures height > 0 ==> r < height
  {
    if height < 2 then 0
    else if height % 2 == 1 then InvertLowestOne(InvertLowestOne(height - 1)) + 1
    else InvertLowestOne(height)
  }

  // ---------- the walk ----------

  /** From height h on the way to t: skip, unless that goes too far or the skip of
      the block before goes further without going too far. */
  function NextHeight(h: nat, t: nat): (r: nat)
    requires t < h
    ensures t <= r < h
  {
    var skip, skipPrev := GetSkipHeight(h), GetSkipHeight(h - 1);
    if skip == t || (skip > t && !(skipPrev < skip - 2 && skipPrev >= t)) then skip else h - 1
  }

  ghost function Steps(h: nat, t: nat): nat
    requires t <= h
  {
    if h == t then 0 else 1 + Steps(NextHeight(h, t), t)
  }

  lemma StepsNext(h: nat, t: nat)
    requires t < h
    ensures Steps(h, t) == 1 + Steps(NextHeight(h, t), t)
  {
  }

  /** One more than the highest bit in which h and t differ. */
  ghost function Level(h: nat, t: nat): (r: nat)
    ensures r == 0 <==> h == t
  {
    if h == t then 0 else 1 + Level(h / 2, t / 2)
  }

  /** How many bits of h below that one are set. */
  ghost function Low(h: nat, t: nat): (r: nat)
    ensures h != t ==> r < Level(h, t)
  {
    if h == t || h / 2 == t / 2 then 0 else h % 2 + Low(h / 2, t / 2)
  }

  lemma Halves(c: nat)
    ensures 2 * c / 2 == c && (2 * c + 1) / 2 == c && 2 * c % 2 == 0 && (2 * c + 1) % 2 == 1
  {
  }

  lemma LowestOfOdd(m: nat)
    ensures InvertLowestOne(2 * m + 1) == 2 * m
  {
    AndSelf(m);
    Halves(m);
  }

  /** One bit more on both sides. */
  lemma LevelHalf(m: nat, bit: nat, t: nat)
    requires bit < 2 && m != t / 2
    ensures Level(2 * m + bit, t) == 1 + Level(m, t / 2) && Low(2 * m + bit, t) == bit + Low(m, t / 2)
  {
    assert (2 * m + bit) / 2 == m && (2 * m + bit) % 2 == bit;
  }

  /** Clearing the lowest set bit below the level leaves the level alone; with none
      there, it goes to t or below. */
  lemma {:induction false} ClearLow(h: nat, t: nat)
    requires t < h
    ensures Low(h, t) == 0 ==> InvertLowestOne(h) <= t
    ensures Low(h, t) > 0 ==>
              var c := InvertLowestOne(h);
              t < c < h && c % 2 == 0 && Level(c, t) == Level(h, t) && Low(c, t) == Low(h, t) - 1
    decreases h
  {
    hide InvertLowestOne, Level, Low;
    var m, s := h / 2, t / 2;
    if h % 2 == 1 {
      assert h == 2 * m + 1;
      LowestOfOdd(m);
      if m == s {
        LowestLevel(h, t);
      } else {
        LevelHalf(m, 0, t);
        LevelHalf(m, 1, t);
      }
    } else {
      assert h == 2 * m && s < m;
      AndDouble(m);
      ClearLow(m, s);
      LevelHalf(m, 0, t);
      if Low(m, s) > 0 { LevelHalf(InvertLowestOne(m), 0, t); }
    }
  }

  lemma LowestLevel(h: nat, t: nat)
    requires h / 2 == t / 2
    ensures Low(h, t) == 0 && Level(h, t) <= 1
  {
  }

  /** Setting the lowest bit of an even height above the lowest level. */
  lemma SetLow(e: nat, t: nat)
    requires e % 2 == 0 && t < e && Level(e, t) >= 2
    ensures Level(e + 1, t) == Level(e, t) && Low(e + 1, t) == Low(e, t) + 1
  {
    Halves(e / 2);
  }

  /** The block before one with no bits below the level is on a lower level. */
  lemma {:induction false} LevelDrops(h: nat, t: nat)
    requires t < h && Low(h, t) == 0
    ensures Level(h - 1, t) < Level(h, t)
    decreases h
  {
    hide Level, Low;
    var m, s := h / 2, t / 2;
    if m == s {
      assert h - 1 == t;
    } else {
      LevelHalf(m, h % 2, t);
      assert h == 2 * m;
      LevelDrops(m, s);
      if m - 1 == s {
        LowestLevel(h - 1, t);
      } else {
        LevelHalf(m - 1, 1, t);
      }
    }
  }

  lemma OneAbove(t: nat)
    ensures Steps(t + 1, t) == 1
  {
    assert NextHeight(t + 1, t) == t;
  }

  lemma ClearShrinks(n: nat)
    ensures InvertLowestOne(n) <= n && (n > 0 ==> InvertLowestOne(n) < n)
  {
  }

  lemma SkipOfOdd(m: nat)
    requires m > 0
    ensures GetSkipHeight(2 * m + 1) == InvertLowestOne(InvertLowestOne(2 * m)) + 1
  {
  }

  /** At an odd height the skip is taken whenever it does not go too far. */
  lemma OddNext(h: nat, t: nat)
    requires t < h && h % 2 == 1 && h >= 3
    ensures NextHeight(h, t) == if GetSkipHeight(h) >= t then GetSkipHeight(h) else h - 1
  {
    hide InvertLowestOne;
    ClearShrinks(h - 1);
    ClearShrinks(InvertLowestOne(h - 1));
  }

  /** A skip to t or one above it leaves at most one more step. */
  lemma NearlyThere(h: nat, t: nat)
    requires t < h && h % 2 == 1 && h >= 3 && t <= GetSkipHeight(h) <= t + 1
    ensures Steps(h, t) <= 2
  {
    hide GetSkipHeight;
    OddNext(h, t);
    OneAbove(t);
  }

  /** The cost of all lower levels. */
  ghost function LevelCost(n: nat): nat {
    if n <= 1 then 0 else LevelCost(n - 1) + (n - 2) / 2 + 2
  }

  lemma {:induction false} LevelCostGrows(m: nat, n: nat)
    requires m <= n
    ensures LevelCost(m) <= LevelCost(n)
    decreases n
  {
    if m < n { LevelCostGrows(m, n - 1); }
  }

  /** The cost of clearing q bits: two at a time from an odd height, one at a time
      from an even one. */
  ghost function ClearCost(odd: bool, q: nat): nat {
    if odd then q / 2 + 3 else if q >= 2 then q + 3 else q + 2
  }

  ghost function Cost(h: nat, t: nat): nat { LevelCost(Level(h, t)) + ClearCost(h % 2 == 1, Low(h, t)) }

  /** A walk takes at most Cost many steps. */
  lemma {:induction false} StepsBounded(h: nat, t: nat)
    requires t < h
    ensures Steps(h, t) <= Cost(h, t)
    decreases h, 2
  {
    hide NextHeight, GetSkipHeight, LevelCost, Low, Level;
    if h == t + 1 {
      OneAbove(t);
    } else if h % 2 == 1 {
      OddBounded(h, t);
    } else {
      EvenBounded(h, t);
    }
  }

  lemma {:induction false} OddBounded(h: nat, t: nat)
    requires t + 1 < h && h % 2 == 1
    ensures Steps(h, t) <= Cost(h, t)
    decreases h, 1
  {
    hide InvertLowestOne, LevelCost, Level, Low, GetSkipHeight, NextHeight, Cost;
    var q, m := Low(h, t), h / 2;
    assert h == 2 * m + 1;
    DropLow(h, t);
    OddNext(h, t);
    SkipOfOdd(m);
    if q >= 3 {
      TwoCleared(2 * m, t);
      StepsBounded(GetSkipHeight(h), t);
      ClearTwoCost(h, GetSkipHeight(h), t);
    } else {
      AtMostOne(2 * m, t);
      if GetSkipHeight(h) >= t {
        NearlyThere(h, t);
        CostAtLeast(h, t);
      } else {
        StepsBounded(2 * m, t);
        ClearOneCost(h, t);
      }
    }
  }

  lemma TwoCleared(e: nat, t: nat)
    requires t < e && Low(e, t) >= 2
    ensures var s := InvertLowestOne(InvertLowestOne(e)) + 1;
            t < s < e && s % 2 == 1 && Level(s, t) == Level(e, t) && Low(s, t) == Low(e, t) - 1
  {
    hide InvertLowestOne, Level, Low;
    var c := InvertLowestOne(e);
    ClearLow(e, t);
    ClearLow(c, t);
    LevelAbove(InvertLowestOne(c), t);
    SetLow(InvertLowestOne(c), t);
  }

  lemma LevelAbove(e: nat, t: nat)
    requires t < e && e % 2 == 0
    ensures Level(e, t) >= 2
  {
    assert e / 2 != t / 2;
  }

  lemma AtMostOne(e: nat, t: nat)
    requires t < e && Low(e, t) <= 1
    ensures InvertLowestOne(InvertLowestOne(e)) <= t
  {
    hide InvertLowestOne, Level, Low;
    var c := InvertLowestOne(e);
    ClearLow(e, t);
    if Low(e, t) == 1 { ClearLow(c, t); } else { ClearShrinks(c); }
  }

  lemma ClearTwoCost(h: nat, s: nat, t: nat)
    requires h % 2 == s % 2 == 1 && Level(s, t) == Level(h, t) && Low(h, t) == Low(s, t) + 2
    ensures Cost(h, t) == Cost(s, t) + 1
  {
    hide LevelCost, Level, Low;
  }

  lemma ClearOneCost(h: nat, t: nat)
    requires h % 2 == 1 && Level(h - 1, t) == Level(h, t) && Low(h, t) == Low(h - 1, t) + 1 <= 2
    ensures Cost(h, t) == Cost(h - 1, t) + 1
  {
    hide LevelCost, Level, Low;
  }

  lemma CostAtLeast(h: nat, t: nat)
    ensures Cost(h, t) >= 2
    ensures h % 2 == 1 || Low(h, t) > 0 ==> Cost(h, t) >= 3
  {
    hide LevelCost, Level, Low;
  }

  /** Clearing the lowest bit of an odd height not just above t. */
  lemma DropLow(h: nat, t: nat)
    requires t + 1 < h && h % 2 == 1
    ensures Level(h, t) >= 2 && Level(h - 1, t) == Level(h, t) && Low(h, t) == Low(h - 1, t) + 1
  {
    assert (h - 1) / 2 == h / 2;
    assert h / 2 != t / 2;
  }

  lemma {:induction false} EvenBounded(h: nat, t: nat)
    requires t + 1 < h && h % 2 == 0
    ensures Steps(h, t) <= Cost(h, t)
    decreases h, 1
  {
    hide InvertLowestOne, LevelCost, Low, Level, GetSkipHeight, Cost;
    var q, s := Low(h, t), GetSkipHeight(h);
    ClearLow(h, t);
    SkipOfEven(h);
    CostAtLeast(h, t);
    if q == 0 {
      if s < t { EvenDrops(h, t); }
    } else if NextHeight(h, t) == s {
      StepsBounded(s, t);
      ClearEvenCost(h, s, t);
    } else {
      PrevBetter(h, t);
      if q == 1 {
        NearlyThere(h - 1, t);
      } else {
        StepsBounded(h - 1, t);
        PrevCost(h, t);
      }
    }
  }

  lemma SkipOfEven(h: nat)
    requires h % 2 == 0 && h > 0
    ensures GetSkipHeight(h) == InvertLowestOne(h)
  {
  }

  lemma ClearEvenCost(h: nat, s: nat, t: nat)
    requires h % 2 == s % 2 == 0 && Level(s, t) == Level(h, t) && Low(h, t) == Low(s, t) + 1
    ensures Cost(h, t) >= Cost(s, t) + 1
  {
    hide LevelCost, Level, Low;
  }

  lemma PrevCost(h: nat, t: nat)
    requires h > 0 && h % 2 == 0 && Level(h - 1, t) == Level(h, t) && Low(h, t) >= 2 && Low(h - 1, t) <= Low(h, t) + 1
    ensures Cost(h, t) >= Cost(h - 1, t) + 1
  {
    hide LevelCost, Level, Low;
    assert (h - 1) % 2 == 1;
  }

  lemma {:induction false} EvenDrops(h: nat, t: nat)
    requires t + 1 < h && h % 2 == 0 && Low(h, t) == 0 && GetSkipHeight(h) < t
    ensures Steps(h, t) <= Cost(h, t)
    decreases h, 0
  {
    hide GetSkipHeight, LevelCost, Low, Level;
    LevelDrops(h, t);
    StepsBounded(h - 1, t);
    var n := Level(h, t);
    LevelCostGrows(Level(h - 1, t), n - 1);
    LevelCostStep(n);
  }

  lemma LevelCostStep(n: nat)
    requires n >= 2
    ensures LevelCost(n) == LevelCost(n - 1) + (n - 2) / 2 + 2
  {
  }

  /** The skip of the block before goes further only next to a bit of value 2 or 4. */
  lemma PrevBetter(h: nat, t: nat)
    requires t + 1 < h && h % 2 == 0 && Low(h, t) > 0
    requires GetSkipHeight(h - 1) < GetSkipHeight(h) - 2
    ensures Level(h - 1, t) == Level(h, t) && Low(h - 1, t) <= Low(h, t) + 1
    ensures Low(h, t) == 1 ==> GetSkipHeight(h - 1) <= t + 1
  {
    hide InvertLowestOne, Level, Low, GetSkipHeight;
    ByEighths(h);
    if h % 4 == 2 {
      NextToTwo(h, t);
    } else if h % 8 == 4 {
      NextToFour(h, t);
    } else {
      NextToEight(h / 8);
      assert false;
    }
  }

  lemma ByEighths(h: nat)
    requires h % 2 == 0
    ensures h % 4 == 2 || h % 8 == 4 || h == 8 * (h / 8)
  {
    var m := h / 2;
    var k := m / 2;
    if m % 2 == 1 {
      DivUnique(h, 4, k, 2);
    } else if k % 2 == 1 {
      DivUnique(h, 8, k / 2, 4);
    } else {
      DivUnique(h, 8, k / 2, 0);
    }
  }

  lemma LowNeedsHalf(m: nat, t: nat)
    requires t < 2 * m && Low(2 * m, t) > 0
    ensures t / 2 < m && Low(m, t / 2) == Low(2 * m, t)
  {
    Halves(m);
  }

  lemma NextToTwo(h: nat, t: nat)
    requires t < h && h % 4 == 2 && Low(h, t) > 0
    ensures h >= 3 && Level(h - 1, t) == Level(h, t) && Low(h - 1, t) == Low(h, t)
    ensures Low(h, t) == 1 ==> GetSkipHeight(h - 1) <= t + 1
  {
    hide InvertLowestOne, Level, Low, GetSkipHeight;
    var k := h / 4;
    var m, c := 2 * k + 1, 2 * k;
    assert h == 2 * m;
    LowNeedsHalf(m, t);
    LowestOfOdd(k);
    ClearLow(m, t / 2);
    LevelHalf(m, 0, t);
    LevelHalf(c, 0, t);
    LevelHalf(c, 1, t);
    SkipOfOdd(c);
    if Low(h, t) == 1 { AtMostOne(h - 2, t); }
  }

  lemma NextToFour(h: nat, t: nat)
    requires t < h && h % 8 == 4 && Low(h, t) > 0
    ensures Level(h - 1, t) == Level(h, t) && Low(h - 1, t) == Low(h, t) + 1
    ensures Low(h, t) == 1 ==> GetSkipHeight(h - 1) <= t + 1
  {
    hide InvertLowestOne, Level, Low, GetSkipHeight;
    var k := h / 8;
    var m, c := 2 * k + 1, 2 * k;
    assert h == 2 * (2 * m);
    LowNeedsHalf(2 * m, t);
    LowNeedsHalf(m, t / 2);
    LowestOfOdd(k);
    ClearLow(m, t / 2 / 2);
    LevelHalf(m, 0, t / 2);
    LevelHalf(2 * m, 0, t);
    LevelHalf(c, 1, t / 2);
    LevelHalf(2 * c + 1, 0, t);
    LevelHalf(2 * c + 1, 1, t);
    SkipOfOdd(2 * c + 1);
    if Low(h, t) == 1 { AtMostOne(h - 2, t); }
  }

  lemma NextToEight(k: nat)
    requires k > 0
    ensures GetSkipHeight(8 * k - 1) > GetSkipHeight(8 * k)
  {
    hide InvertLowestOne;
    AndDouble(4 * k);
    AndDouble(2 * k);
    AndDouble(k);
    ClearShrinks(k);
    LowestOfOdd(2 * (k - 1) + 1);
    AndDouble(4 * (k - 1) + 3);
    LowestOfOdd(k - 1);
    AndDouble(2 * (k - 1) + 1);
    AndDouble(4 * (k - 1) + 2);
  }

  lemma {:induction false} LevelCostIs(n: nat)
    requires n >= 1
    ensures LevelCost(n) == n * n / 4 + n - 1
  {
    if n > 1 {
      LevelCostIs(n - 1);
      QuarterSquare(n);
    }
  }

  lemma QuarterSquare(n: nat)
    requires n >= 1
    ensures n * n / 4 == (n - 1) * (n - 1) / 4 + n / 2
  {
    var k := n / 2;
    if n == 2 * k {
      QuarterEven(k);
      QuarterOdd(k - 1);
      MulDist(k, k, -1);
    } else {
      QuarterEven(k);
      QuarterOdd(k);
    }
  }

  lemma QuarterEven(k: nat)
    ensures (2 * k) * (2 * k) / 4 == k * k
  {
    assert (2 * k) * (2 * k) == 4 * (k * k);
  }

  lemma QuarterOdd(k: nat)
    ensures (2 * k + 1) * (2 * k + 1) / 4 == k * k + k == k * (k + 1)
  {
    assert (2 * k + 1) * (2 * k + 1) == 4 * (k * k + k) + 1;
  }

  lemma {:induction false} LevelBelow(h: nat, t: nat, n: nat)
    requires t <= h < Pow2(n)
    ensures Level(h, t) <= n
    decreases n
  {
    if h != t { LevelBelow(h / 2, t / 2, n - 1); }
  }

  /** From any height below 2^n, any ancestor is at most n * n / 4 + 2 * n + 1 steps
      away: 118 for the 2^18 blocks for which simulations gave 110. */
  lemma StepsLogarithmic(h: nat, t: nat, n: nat)
    requires t <= h < Pow2(n)
    ensures Steps(h, t) <= n * n / 4 + 2 * n + 1
  {
    hide LevelCost, Low, Level, NextHeight, Steps;
    if h == t {
      NoSteps(t);
    } else {
      StepsBounded(h, t);
      LevelBelow(h, t, n);
      LevelCostGrows(Level(h, t), n);
      LevelCostIs(n);
    }
  }

  lemma NoSteps(t: nat)
    ensures Steps(t, t) == 0
  {
  }
}
