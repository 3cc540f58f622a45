/** The block index: a tree of blocks linked to their parents, with skip
    pointers for fast ancestor lookup, and the indexed active chain. */
module Chain {
  import opened Nonlinear
  import opened SkipHeights

  // ---------- the block tree ----------

  class BlockIndex {
    const pprev: BlockIndex?
    const nHeight: nat
    const nTime: int
    /** The largest time among this block and its ancestors. */
    const nTimeMax: int
    var pskip: BlockIndex?

    /** A genesis block (no parent) or a child of `parent`; the skip pointer is not built yet. */
    constructor (parent: BlockIndex?, time: int)
      requires parent != null ==> parent.Linked()
      ensures pprev == parent && nTime == time && pskip == null && Linked()
    {
      pprev := parent;
      nHeight := if parent == null then 0 else parent.nHeight + 1;
      nTime := time;
      nTimeMax := if parent == null || parent.nTimeMax < time then time else parent.nTimeMax;
      pskip := null;
    }

    ghost predicate Linked()
      decreases nHeight
    {
      if pprev == null then
        nHeight == 0 && nTimeMax == nTime
      else
        && nHeight == pprev.nHeight + 1 && pprev.Linked()
        && nTimeMax == if pprev.nTimeMax < nTime then nTime else pprev.nTimeMax
    }

    ghost function Branch(): set<BlockIndex>
      requires Linked()
      decreases nHeight
    {
      {this} + if pprev == null then {} else pprev.Branch()
    }

    /** The block reached by following pprev down to height k. */
    ghost function Ancestor(k: nat): (r: BlockIndex)
      requires Linked() && k <= nHeight
      ensures r.Linked() && r.nHeight == k && r in Branch()
      decreases nHeight
    {
      if k == nHeight then this else pprev.Ancestor(k)
    }

    ghost predicate SkipOk()
      requires Linked()
      reads this
    {
      pskip != null ==> pskip == Ancestor(GetSkipHeight(nHeight))
    }

    ghost predicate SkipsOk()
      requires Linked()
      reads Branch()
    {
      forall k: nat :: k <= nHeight ==> Ancestor(k).SkipOk()
    }

    lemma {:induction false} AncestorTrans(k: nat, j: nat)
      requires Linked() && j <= k <= nHeight
      ensures Ancestor(k).Ancestor(j) == Ancestor(j)
      decreases nHeight
    {
      if k < nHeight { pprev.AncestorTrans(k, j); }
    }

    lemma SkipsBelow(k: nat)
      requires Linked() && SkipsOk() && k <= nHeight
      ensures Ancestor(k).SkipsOk()
    {
      forall j: nat | j <= k
        ensures Ancestor(k).Ancestor(j).SkipOk()
      {
        AncestorTrans(k, j);
        assert Ancestor(j).SkipOk();
      }
    }

    lemma ParentOf(k: nat)
      requires Linked() && 0 < k <= nHeight
      ensures Ancestor(k).pprev == Ancestor(k - 1)
    {
      AncestorTrans(k, k - 1);
    }

    /** Every block of the branch above the genesis block has its skip pointer. */
    ghost predicate SkipsBuilt()
      requires Linked()
      reads Branch()
    {
      forall k: nat :: 0 < k <= nHeight ==> Ancestor(k).pskip != null
    }

    /** Walk to the ancestor, over skip pointers where they help. With all of them
        built, the number of steps is that of the walk over heights. */
    method GetAncestor(height: int) returns (r: BlockIndex?, ghost steps: nat)
      requires Linked() && SkipsOk()
      ensures r == if 0 <= height <= nHeight then Ancestor(height) else null
      ensures r != null ==> r.SkipsOk()
      ensures SkipsBuilt() && 0 <= height <= nHeight ==> steps == Steps(nHeight, height)
    {
      hide Steps;
      steps := 0;
      if height > nHeight || height < 0 { return null, 0; }
      var pindexWalk := this;
      var heightWalk: nat := nHeight;
      NoSteps(height);
      while heightWalk > height
        invariant height <= heightWalk <= nHeight && pindexWalk == Ancestor(heightWalk)
        invariant SkipsOk()
        invariant SkipsBuilt() ==> steps + Steps(heightWalk, height) == Steps(nHeight, height)
      {
        StepsNext(heightWalk, height);
        steps := steps + 1;
        var heightSkip := GetSkipHeight(heightWalk);
        var heightSkipPrev := GetSkipHeight(heightWalk - 1);
        assert Ancestor(heightWalk).SkipOk();
        if && pindexWalk.pskip != null
           && (|| heightSkip == height
               || (heightSkip > height && !(heightSkipPrev < heightSkip - 2 && heightSkipPrev >= height)))
        {
          // The skip stays at or above the goal, and the parent's skip would not end closer to it.
          AncestorTrans(heightWalk, heightSkip);
          pindexWalk := pindexWalk.pskip;
          heightWalk := heightSkip;
        } else {
          ParentOf(heightWalk);
          pindexWalk := pindexWalk.pprev;
          heightWalk := heightWalk - 1;
        }
      }
      SkipsBelow(height);
      return pindexWalk, steps;
    }

    method BuildSkip()
      requires Linked() && SkipOk() && (pprev != null ==> pprev.SkipsOk())
      modifies this
      ensures SkipsOk() && (pprev == null || old(pprev.SkipsBuilt()) ==> SkipsBuilt())
      ensures pskip == if pprev == null then old(pskip) else Ancestor(GetSkipHeight(nHeight))
    {
      if pprev != null {
        var skip, _ := pprev.GetAncestor(GetSkipHeight(nHeight));
        pskip := skip;
      }
      forall k: nat | k < nHeight
        ensures Ancestor(k).SkipOk()
        ensures old(pprev.SkipsBuilt()) && k > 0 ==> Ancestor(k).pskip != null
      {
        assert Ancestor(k) == pprev.Ancestor(k) != this;
        assert old(pprev.Ancestor(k).SkipOk());
        assert old(pprev.SkipsBuilt()) && k > 0 ==> old(pprev.Ancestor(k).pskip) != null;
      }
    }
  }

  /** The blocks a and b have in common are those below the height returned. */
  method LastCommonAncestor(a: BlockIndex, b: BlockIndex) returns (r: BlockIndex?)
    requires a.Linked() && b.Linked() && a.SkipsOk() && b.SkipsOk()
    ensures r == null ==> forall k: nat :: k <= a.nHeight && k <= b.nHeight ==> a.Ancestor(k) != b.Ancestor(k)
    ensures r != null ==>
              && r.nHeight <= a.nHeight && r.nHeight <= b.nHeight
              && r == a.Ancestor(r.nHeight) == b.Ancestor(r.nHeight)
              && forall k: nat :: r.nHeight < k <= a.nHeight && k <= b.nHeight ==> a.Ancestor(k) != b.Ancestor(k)
  {
    hide BlockIndex.SkipsOk, BlockIndex.SkipsBuilt, Steps;
    var pa: BlockIndex?, pb: BlockIndex? := a, b;
    if a.nHeight > b.nHeight {
      var same, _ := a.GetAncestor(b.nHeight);
      pa := same;
    } else if b.nHeight > a.nHeight {
      var same, _ := b.GetAncestor(a.nHeight);
      pb := same;
    }
    ghost var h: int := pa.nHeight;
    while pa != pb && pa != null && pb != null
      invariant -1 <= h <= a.nHeight && h <= b.nHeight
      invariant if h < 0 then pa == pb == null else pa == a.Ancestor(h) && pb == b.Ancestor(h)
      invariant forall k: nat :: h < k <= a.nHeight && k <= b.nHeight ==> a.Ancestor(k) != b.Ancestor(k)
      decreases h
    {
      if h > 0 {
        a.ParentOf(h);
        b.ParentOf(h);
      }
      pa := pa.pprev;
      pb := pb.pprev;
      h := h - 1;
    }
    // Both run out together: the walk keeps them at one height.
    assert pa == pb;
    return pa;
  }

  // ---------- the active chain ----------

  /** How far below the start entry i of a locator stands. */
  ghost function Back(i: nat): nat {
    if i <= 10 then i else 9 + Pow2(i - 10)
  }

  ghost function LocatorHeight(h: nat, i: nat): nat {
    if Back(i) >= h then 0 else h - Back(i)
  }

  /** One block per height, each the parent of the next. */
  ghost predicate IsPath(s: seq<BlockIndex?>) {
    forall i :: 0 <= i < |s| ==>
      && s[i] != null && s[i].Linked() && s[i].nHeight == i
      && (i > 0 ==> s[i].pprev == s[i - 1])
  }

  lemma {:induction false} PathAncestors(s: seq<BlockIndex?>, h: nat, i: nat)
    requires IsPath(s) && i <= h < |s|
    ensures s[i] == s[h].Ancestor(i)
    decreases h
  {
    if i < h { PathAncestors(s, h - 1, i); }
  }

  lemma {:induction false} TimeMaxGrows(s: seq<BlockIndex?>, i: nat, j: nat)
    requires IsPath(s) && i <= j < |s|
    ensures s[i].nTimeMax <= s[j].nTimeMax
    decreases j
  {
    if i < j { TimeMaxGrows(s, i, j - 1); }
  }

  lemma TimesAround(s: seq<BlockIndex?>, it: nat)
    requires IsPath(s) && it < |s|
    ensures forall i :: 0 <= i <= it ==> s[i].nTimeMax <= s[it].nTimeMax
    ensures forall i :: it <= i < |s| ==> s[it].nTimeMax <= s[i].nTimeMax
  {
    forall i | 0 <= i < |s|
      ensures i <= it ==> s[i].nTimeMax <= s[it].nTimeMax
      ensures it <= i ==> s[it].nTimeMax <= s[i].nTimeMax
    {
      if i <= it { TimeMaxGrows(s, i, it); } else { TimeMaxGrows(s, it, i); }
    }
  }

  /** Some block up to height i has a time of at least `time`. */
  ghost predicate Reached(s: seq<BlockIndex?>, i: nat, time: int)
    requires IsPath(s) && i < |s|
  {
    exists j :: 0 <= j <= i && s[j].nTime >= time
  }

  /** r is the lowest block at `height` or above by which the time was reached, or
      null if there is none. */
  ghost predicate IsFirstReached(s: seq<BlockIndex?>, time: int, height: int, r: BlockIndex?)
    requires IsPath(s)
  {
    && (r == null ==> forall i :: 0 <= i < |s| && height <= i ==> !Reached(s, i, time))
    && (r != null ==>
          && 0 <= r.nHeight < |s| && s[r.nHeight] == r
          && height <= r.nHeight && Reached(s, r.nHeight, time)
          && forall i :: 0 <= i < r.nHeight && height <= i ==> !Reached(s, i, time))
  }

  /** r is the lowest block at `height` or above whose own time is at least `time`,
      or null if there is none. */
  ghost predicate IsFirstTimed(s: seq<BlockIndex?>, time: int, height: int, r: BlockIndex?)
    requires IsPath(s)
  {
    && (r == null ==> forall i :: 0 <= i < |s| && height <= i ==> s[i].nTime < time)
    && (r != null ==>
          && 0 <= r.nHeight < |s| && s[r.nHeight] == r
          && height <= r.nHeight && r.nTime >= time
          && forall i :: 0 <= i < r.nHeight && height <= i ==> s[i].nTime < time)
  }

  /** The block found is the one whose own time is asked for, unless the time was
      reached below `height` and the block at `height` is older. */
  lemma OwnTimeIff(s: seq<BlockIndex?>, time: int, height: int, r: BlockIndex?)
    requires IsPath(s) && IsFirstReached(s, time, height, r)
    ensures IsFirstTimed(s, time, height, r)
       <==> height <= 0 || height >= |s| || !Reached(s, height - 1, time) || s[height].nTime >= time
  {
    if r != null {
      var h := r.nHeight;
      if h > 0 { ReachedStep(s, h, time); }
      if 0 < height < |s| && Reached(s, height - 1, time) {
        ReachedStep(s, height, time);
        assert h == height;
      }
    } else if 0 < height < |s| {
      ReachedStep(s, height, time);
    }
    forall i | 0 <= i < |s| && s[i].nTime >= time
      ensures Reached(s, i, time)
    {
    }
  }

  lemma ReachedStep(s: seq<BlockIndex?>, i: nat, time: int)
    requires IsPath(s) && 0 < i < |s|
    ensures Reached(s, i, time) <==> Reached(s, i - 1, time) || s[i].nTime >= time
  {
    hide IsPath;
  }

  /** Times 100 and 50, asked for 100 from height 1: the answer has time 50. */
  lemma OwnTimeFails(s: seq<BlockIndex?>, r: BlockIndex?)
    requires IsPath(s) && |s| == 2 && s[0].nTime == 100 && s[1].nTime == 50
    requires IsFirstReached(s, 100, 1, r)
    ensures r == s[1] && r.nTime == 50 && !IsFirstTimed(s, 100, 1, r)
  {
    assert Reached(s, 1, 100);
  }

  lemma {:induction false} TimeMaxIs(s: seq<BlockIndex?>, i: nat, time: int)
    requires IsPath(s) && i < |s|
    ensures Reached(s, i, time) <==> s[i].nTimeMax >= time
    decreases i
  {
    if i > 0 {
      TimeMaxIs(s, i - 1, time);
      assert s[i].pprev == s[i - 1];
      assert s[i].nTime >= time ==> Reached(s, i, time);
    }
  }

  class ActiveChain {
    var vChain: seq<BlockIndex?>

    ghost predicate Valid()
      reads this
    {
      IsPath(vChain)
    }

    constructor ()
      ensures Valid() && vChain == []
    {
      vChain := [];
    }

    function At(height: int): (r: BlockIndex?)
      reads this
    {
      if height < 0 || height >= |vChain| then null else vChain[height]
    }

    function Tip(): (r: BlockIndex?)
      reads this
    {
      if |vChain| > 0 then vChain[|vChain| - 1] else null
    }

    /** Whether a block is on the chain, by looking at its height only. */
    predicate Contains(b: BlockIndex)
      reads this
    {
      At(b.nHeight) == b
    }

    lemma ContainsIff(b: BlockIndex)
      requires Valid() && b.Linked()
      ensures Contains(b) <==> Tip() != null && b.nHeight <= Tip().nHeight && Tip().Ancestor(b.nHeight) == b
    {
      if b.nHeight < |vChain| { PathAncestors(vChain, |vChain| - 1, b.nHeight); }
    }

    lemma TipLinked()
      requires Valid() && Tip() != null
      ensures Tip().Linked()
    {
    }

    /** The loop stops at the first block already in place: below it the old
        entries are the new tip's ancestors too. */
    method SetTip(tip: BlockIndex?)
      requires Valid() && (tip != null ==> tip.Linked())
      modifies this
      ensures Valid() && Tip() == tip
      ensures tip == null ==> vChain == []
      ensures tip != null ==> |vChain| == tip.nHeight + 1
                              && forall i :: 0 <= i <= tip.nHeight ==> vChain[i] == tip.Ancestor(i)
    {
      if tip == null {
        vChain := [];
        return;
      }
      ghost var was := vChain;
      var n := tip.nHeight + 1;
      vChain := if n <= |vChain| then vChain[..n] else vChain + seq(n - |vChain|, _ => null);
      ghost var resized := vChain;
      var pindex: BlockIndex? := tip;
      ghost var h: int := tip.nHeight;
      while pindex != null && vChain[pindex.nHeight] != pindex
        invariant -1 <= h < n == |vChain|
        invariant if h < 0 then pindex == null else pindex == tip.Ancestor(h)
        invariant forall i :: h < i < n ==> vChain[i] == tip.Ancestor(i)
        invariant forall i :: 0 <= i <= h ==> vChain[i] == resized[i]
        decreases h
      {
        if h > 0 { tip.ParentOf(h); }
        vChain := vChain[pindex.nHeight := pindex];
        pindex := pindex.pprev;
        h := h - 1;
      }
      forall i | 0 <= i < n
        ensures vChain[i] == tip.Ancestor(i)
      {
        if i <= h {
          assert was[h] == pindex;
          PathAncestors(was, h, i);
          tip.AncestorTrans(h, i);
        }
      }
      forall i | 0 < i < n
        ensures vChain[i].pprev == vChain[i - 1]
      {
        tip.ParentOf(i);
      }
    }

    /** The highest block of the chain that is an ancestor of `start`, or null. */
    method FindFork(start: BlockIndex?) returns (r: BlockIndex?)
      requires Valid() && (start != null ==> start.Linked() && start.SkipsOk())
      ensures start == null ==> r == null
      ensures start != null && r == null ==>
                forall k: nat :: k < |vChain| && k <= start.nHeight ==> vChain[k] != start.Ancestor(k)
      ensures start != null && r != null ==>
                && r.nHeight < |vChain| && r.nHeight <= start.nHeight
                && vChain[r.nHeight] == r == start.Ancestor(r.nHeight)
                && forall k: nat :: r.nHeight < k < |vChain| && k <= start.nHeight ==> vChain[k] != start.Ancestor(k)
    {
      hide BlockIndex.SkipsOk, BlockIndex.SkipsBuilt, Steps;
      if start == null { return null; }
      r := start;
      ghost var h: int := start.nHeight;
      if r.nHeight > |vChain| - 1 {
        var level, _ := r.GetAncestor(|vChain| - 1);
        r := level;
        h := |vChain| - 1;
      }
      while r != null && !Contains(r)
        invariant -1 <= h <= start.nHeight && h < |vChain|
        invariant if h < 0 then r == null else r == start.Ancestor(h)
        invariant forall k: nat :: h < k < |vChain| && k <= start.nHeight ==> vChain[k] != start.Ancestor(k)
        decreases h
      {
        if h > 0 { start.ParentOf(h); }
        r := r.pprev;
        h := h - 1;
      }
    }

    /** The lowest block of the chain at `height` or above by which some block
        has reached the time. Halving search, as in std::lower_bound. */
    method FindEarliestAtLeast(time: int, height: int) returns (r: BlockIndex?)
      requires Valid()
      ensures IsFirstReached(vChain, time, height, r)
    {
      var first, count: nat := 0, |vChain|;
      while count > 0
        invariant first + count <= |vChain|
        invariant forall i :: 0 <= i < first ==> vChain[i].nTimeMax < time || i < height
        invariant forall i :: first + count <= i < |vChain| ==> vChain[i].nTimeMax >= time && i >= height
      {
        var step := count / 2;
        var it := first + step;
        assert vChain[it].nHeight == it;
        TimesAround(vChain, it);
        if vChain[it].nTimeMax < time || vChain[it].nHeight < height {
          first, count := it + 1, count - step - 1;
        } else {
          count := step;
        }
      }
      forall i | 0 <= i < |vChain|
        ensures Reached(vChain, i, time) == (vChain[i].nTimeMax >= time)
      {
        TimeMaxIs(vChain, i, time);
      }
      return At(first);
    }

    /** The ancestors of a block (by default the tip) at heights that fall by
        one ten times and then by doubling steps, down to the genesis block. */
    method GetLocator(start: BlockIndex?) returns (have: seq<BlockIndex>)
      requires Valid() && (start != null ==> start.Linked() && start.SkipsOk())
      requires Tip() != null ==> Tip().SkipsOk()
      ensures var b := if start == null then Tip() else start;
              if b == null then have == [] else IsLocator(b, have)
    {
      hide BlockIndex.Linked, BlockIndex.SkipsOk, Pow2, IsPath, Back;
      var pindex := if start == null then Tip() else start;
      if start == null && Tip() != null { TipLinked(); }
      have := [];
      if pindex == null { return; }
      ghost var b := pindex;
      var nStep := 1;
      BackGrows(0);
      while true
        invariant b.Linked() && pindex != null && pindex.Linked() && pindex.SkipsOk()
        invariant nStep == Back(|have| + 1) - Back(|have|)
        invariant forall i :: 0 <= i < |have| ==> have[i] == b.Ancestor(LocatorHeight(b.nHeight, i))
        invariant forall i :: 0 <= i < |have| ==> Back(i) < b.nHeight
        invariant pindex == b.Ancestor(LocatorHeight(b.nHeight, |have|))
        decreases b.nHeight - Back(|have|)
      {
        BackGrows(|have|);
        have := have + [pindex];
        if pindex.nHeight == 0 { return; }
        var height := if pindex.nHeight - nStep > 0 then pindex.nHeight - nStep else 0;
        b.AncestorTrans(pindex.nHeight, height);
        pindex := StepBack(pindex, height);
        if |have| > 10 { nStep := nStep * 2; }
      }
    }

    /** An ancestor, from the chain if the block is on it, else by its skip pointers. */
    method StepBack(b: BlockIndex, height: nat) returns (r: BlockIndex)
      requires Valid() && b.Linked() && b.SkipsOk() && height <= b.nHeight
      ensures r == b.Ancestor(height) && r.SkipsOk()
    {
      if Contains(b) {
        PathAncestors(vChain, b.nHeight, height);
        b.SkipsBelow(height);
        r := At(height);
      } else {
        var next, _ := b.GetAncestor(height);
        r := next;
      }
    }
  }

  /** Such a chain, and the search on it. */
  method OwnTimeExample() returns (r: BlockIndex)
    ensures r.nHeight == 1 && r.nTime == 50
  {
    var genesis := new BlockIndex(null, 100);
    var child := new BlockIndex(genesis, 50);
    var chain := new ActiveChain();
    chain.SetTip(child);
    assert child.Ancestor(1) == child && child.Ancestor(0) == genesis;
    var found := chain.FindEarliestAtLeast(100, 1);
    OwnTimeFails(chain.vChain, found);
    r := found;
  }

  ghost predicate IsLocator(b: BlockIndex, have: seq<BlockIndex>)
    requires b.Linked()
  {
    && |have| > 0 && Back(|have| - 1) >= b.nHeight
    && (forall i :: 0 <= i < |have| - 1 ==> Back(i) < b.nHeight)
    && forall i :: 0 <= i < |have| ==> have[i] == b.Ancestor(LocatorHeight(b.nHeight, i))
  }

  lemma {:induction false} BackGrows(i: nat)
    ensures Back(i) < Back(i + 1) && Back(0) == 0 && Back(1) == 1
    ensures Back(i + 2) - Back(i + 1) == (Back(i + 1) - Back(i)) * if i >= 10 then 2 else 1
  {
    if i >= 10 {
      assert Pow2(i - 8) == 2 * Pow2(i - 9) && Pow2(i - 9) == 2 * Pow2(i - 10);
    } else if i == 9 {
      assert Pow2(1) == 2;
    }
  }

  lemma {:induction false} BackMono(i: nat, j: nat)
    requires i < j
    ensures Back(i) < Back(j)
    decreases j
  {
    BackGrows(j - 1);
    if i < j - 1 { BackMono(i, j - 1); }
  }

  /** A locator's heights fall strictly, from the start to the genesis block. */
  lemma LocatorDescends(b: BlockIndex, have: seq<BlockIndex>)
    requires b.Linked() && IsLocator(b, have)
    ensures have[0] == b && have[|have| - 1].nHeight == 0
    ensures forall i, j :: 0 <= i < j < |have| ==> have[i].nHeight > have[j].nHeight
  {
    hide Back;
    BackGrows(0);
    forall i, j | 0 <= i < j < |have|
      ensures have[i].nHeight > have[j].nHeight
    {
      BackMono(i, j);
    }
  }

  /** Its length: every block up to height 10, and above that logarithmic. */
  lemma LocatorLength(b: BlockIndex, have: seq<BlockIndex>, k: nat)
    requires b.Linked() && IsLocator(b, have)
    ensures b.nHeight <= 10 ==> |have| == b.nHeight + 1
    ensures b.nHeight > 10 ==> |have| > 11 && Pow2(|have| - 12) < b.nHeight - 9 <= Pow2(|have| - 11)
    ensures b.nHeight + 1 <= Pow2(k) ==> |have| <= 11 + k
  {
    var n, h := |have| - 1, b.nHeight;
    if h <= 10 {
      assert Back(h) == h;
    } else {
      assert Back(n - 1) < h;
      assert Pow2(0) == 1;
      if k <= n - 11 { Pow2Mono(k, n - 11); }
    }
  }
}
