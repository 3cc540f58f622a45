/** The stack of coin views: a database at the bottom and any number of write
    caches on top of one another. */
module CoinsCache {
  import opened CoinLayers

  /** Adding to the plain coin set; unspendable outputs are never kept. */
  ghost function WithCoin(coins: Coins, o: OutPoint, coin: Coin): Coins {
    if IsUnspendable(coin.out.scriptPubKey) then coins else coins[o := coin]
  }

  lemma NotSeen(parent: Coins, layer: Layer, o: OutPoint, possibleOverwrite: bool)
    ensures possibleOverwrite || o !in Overlay(parent, layer) ==> !Overwrites(layer, o, possibleOverwrite)
  {
  }

  lemma SeenOutside(parent: Coins, layer: Layer, o: OutPoint)
    requires o !in layer
    ensures o in Overlay(parent, layer) <==> o in parent
  {
  }

  /** What a layer shows of an outpoint that was just looked up. */
  lemma SeenAt(parent: Coins, layer: Layer, o: OutPoint)
    requires LayerOk(parent, layer) && (o in parent ==> o in layer)
    ensures o in layer ==>
              layer[o].coin == (if o in Overlay(parent, layer) then Overlay(parent, layer)[o] else NULL_COIN)
    ensures o !in layer ==> o !in Overlay(parent, layer)
  {
    if o in layer {
      assert EntryOk(parent, o, layer[o]);
    }
  }

  datatype Transaction = Transaction(txid: nat, vout: seq<TxOut>, isCoinBase: bool, isCoinStake: bool)

  function OutputCoin(tx: Transaction, nHeight: nat, i: nat): Coin
    requires i < |tx.vout|
  {
    Coin(tx.vout[i], tx.isCoinBase, nHeight, tx.isCoinStake)
  }

  /** The plain coin set after the first n outputs of a transaction. */
  ghost function WithOutputs(coins: Coins, tx: Transaction, nHeight: nat, n: nat): Coins
    requires n <= |tx.vout|
  {
    if n == 0 then coins
    else WithCoin(WithOutputs(coins, tx, nHeight, n - 1), OutPoint(tx.txid, n - 1), OutputCoin(tx, nHeight, n - 1))
  }

  lemma {:induction false} OutputsSoFar(coins: Coins, tx: Transaction, nHeight: nat, n: nat, i: nat)
    requires n <= i < |tx.vout|
    ensures OutPoint(tx.txid, i) in WithOutputs(coins, tx, nHeight, n) <==> OutPoint(tx.txid, i) in coins
  {
    if n > 0 {
      OutputsSoFar(coins, tx, nHeight, n - 1, i);
    }
  }

  ghost predicate Spendable(tx: Transaction, i: nat)
    requires i < |tx.vout|
  {
    !IsUnspendable(tx.vout[i].scriptPubKey)
  }

  /** The cache after the first n outputs, none of them looked up. */
  ghost function AddedOutputs(layer: Layer, tx: Transaction, nHeight: nat, n: nat): Layer
    requires n <= |tx.vout|
  {
    if n == 0 then layer
    else
      var l := AddedOutputs(layer, tx, nHeight, n - 1);
      if Spendable(tx, n - 1) then Added(l, OutPoint(tx.txid, n - 1), OutputCoin(tx, nHeight, n - 1), tx.isCoinBase)
      else l
  }

  /** Adding output i without looking it up meets a cached coin. */
  ghost predicate Blocked(layer: Layer, tx: Transaction, i: nat)
    requires i < |tx.vout|
  {
    Spendable(tx, i) && Overwrites(layer, OutPoint(tx.txid, i), tx.isCoinBase)
  }

  lemma {:induction false} OutputsUntouched(layer: Layer, tx: Transaction, nHeight: nat, n: nat, i: nat)
    requires n <= i < |tx.vout|
    ensures var o := OutPoint(tx.txid, i);
            Lookup(AddedOutputs(layer, tx, nHeight, n), o) == Lookup(layer, o)
  {
    if n > 0 { OutputsUntouched(layer, tx, nHeight, n - 1, i); }
  }

  lemma OutputsNone(layer: Layer, coins: Coins, tx: Transaction, nHeight: nat)
    ensures AddedOutputs(layer, tx, nHeight, 0) == layer && WithOutputs(coins, tx, nHeight, 0) == coins
  {
  }

  lemma OutputsStep(layer: Layer, tx: Transaction, nHeight: nat, i: nat)
    requires i < |tx.vout|
    ensures var l := AddedOutputs(layer, tx, nHeight, i);
            AddedOutputs(layer, tx, nHeight, i + 1) ==
            if Spendable(tx, i) then Added(l, OutPoint(tx.txid, i), OutputCoin(tx, nHeight, i), tx.isCoinBase) else l
  {
  }

  ghost predicate NoneSeen(coins: Coins, tx: Transaction, n: nat)
    requires n <= |tx.vout|
  {
    forall i :: 0 <= i < n && Spendable(tx, i) ==> OutPoint(tx.txid, i) !in coins
  }

  /** Outputs added without looking them up leave the cache in order exactly when
      they may overwrite or none of them was visible. */
  lemma {:induction false} AddedOutputsIff(parent: Coins, layer: Layer, tx: Transaction, nHeight: nat, n: nat)
    requires n <= |tx.vout| && LayerOk(parent, layer)
    requires forall i :: 0 <= i < n ==> tx.vout[i].nValue != -1 && !Blocked(layer, tx, i)
    ensures Overlay(parent, AddedOutputs(layer, tx, nHeight, n)) == WithOutputs(Overlay(parent, layer), tx, nHeight, n)
    ensures LayerOk(parent, AddedOutputs(layer, tx, nHeight, n)) <==>
            tx.isCoinBase || NoneSeen(Overlay(parent, layer), tx, n)
  {
    hide Overlay, Added, EntryOk;
    if n > 0 {
      AddedOutputsIff(parent, layer, tx, nHeight, n - 1);
      var l, o := AddedOutputs(layer, tx, nHeight, n - 1), OutPoint(tx.txid, n - 1);
      var coin := OutputCoin(tx, nHeight, n - 1);
      OutputsUntouched(layer, tx, nHeight, n - 1, n - 1);
      OutputsSoFar(Overlay(parent, layer), tx, nHeight, n - 1, n - 1);
      assert tx.vout[n - 1].nValue != -1 && !Blocked(layer, tx, n - 1);
      if Spendable(tx, n - 1) {
        AddView(parent, l, o, coin, tx.isCoinBase);
        if LayerOk(parent, l) {
          AddIff(parent, l, o, coin, tx.isCoinBase);
        } else {
          StaysBroken(parent, layer, l, o, coin, tx.isCoinBase);
        }
      }
    }
  }

  lemma StaysBroken(parent: Coins, layer: Layer, l: Layer, o: OutPoint, coin: Coin, possibleOverwrite: bool)
    requires LayerOk(parent, layer) && !LayerOk(parent, l) && Lookup(l, o) == Lookup(layer, o)
    ensures !LayerOk(parent, Added(l, o, coin, possibleOverwrite))
  {
    var p :| p in l && !EntryOk(parent, p, l[p]);
    assert p != o;
    assert p in Added(l, o, coin, possibleOverwrite);
  }

  /** Some of a child's entries were merged, none of them misapplied, and no others. */
  ghost predicate PartlyMerged(us: Layer, child: Layer, done: set<OutPoint>, m: Layer) {
    done < child.Keys && !Misapplied(us, Only(child, done)) && m == Merged(us, Only(child, done))
  }

  datatype Op =
    | Add(o: OutPoint, coin: Coin, possibleOverwrite: bool)
    | Spend(o: OutPoint)
    | Look(o: OutPoint)
    | Drop(o: OutPoint)
    | FlushLevel(below: nat)

  /** The same operation on one plain set of coins. */
  ghost function FlatStep(coins: Coins, op: Op): Coins {
    match op
    case Add(o, coin, _) => WithCoin(coins, o, coin)
    case Spend(o) => coins - {o}
    case _ => coins
  }

  ghost function FlatRun(coins: Coins, ops: seq<Op>): Coins
    decreases |ops|
  {
    if ops == [] then coins else FlatRun(FlatStep(coins, ops[0]), ops[1..])
  }

  /** Each add is of an unspent coin and overwrites only when it says so. */
  ghost predicate Allowed(coins: Coins, ops: seq<Op>)
    decreases |ops|
  {
    ops != [] ==>
    && (ops[0].Add? ==> !IsSpent(ops[0].coin) && (ops[0].possibleOverwrite || ops[0].o !in coins))
    && Allowed(FlatStep(coins, ops[0]), ops[1..])
  }

  lemma MergedIs(us: Layer, child: Layer, m: Layer)
    requires forall o :: Lookup(m, o) == if o in child then MergedAt(us, child, o) else Lookup(us, o)
    ensures m == Merged(us, child)
  {
    forall o ensures o in m <==> o in Merged(us, child)
             ensures o in m ==> m[o] == Merged(us, child)[o]
    {
      assert Lookup(m, o) == if o in child then MergedAt(us, child, o) else Lookup(us, o);
    }
  }

  /** Where a merge stops: everything but `todo` has been merged. */
  lemma StoppedAt(us: Layer, child: Layer, todo: Layer, m: Layer, o: OutPoint)
    requires o in todo && forall p :: p in todo ==> p in child && todo[p] == child[p]
    requires forall p :: Lookup(m, p) == if p in child && p !in todo then MergedAt(us, child, p) else Lookup(us, p)
    requires forall p :: p in child && p !in todo ==> !MisappliedAt(us, child, p)
    ensures exists done :: PartlyMerged(us, child, done, m)
  {
    hide Merged;
    var done := child.Keys - todo.Keys;
    var part := Only(child, done);
    forall p
      ensures Lookup(m, p) == if p in part then MergedAt(us, part, p) else Lookup(us, p)
      ensures !MisappliedAt(us, part, p)
    {
    }
    MergedIs(us, part, m);
    assert o in child.Keys && o !in done;
    assert PartlyMerged(us, child, done, m);
  }

  class CoinsView {
    const base: CoinsView?   // what this cache is layered on; null for the database
    const usageOf: Script -> nat
    var db: Coins            // the database's own coins
    var cacheCoins: Layer
    var cachedCoinsUsage: int

    ghost const depth: nat
    ghost const chain: set<CoinsView>   // this view and everything below it

    ghost predicate Linked()
      decreases depth
    {
      && this in chain && usageOf([]) == 0
      && (base == null ==> chain == {this})
      && (base != null ==>
            base.depth < depth && this !in base.chain && chain == base.chain + {this} && base.Linked())
    }

    /** The unspent coins this view shows. */
    ghost function View(): Coins
      requires Linked()
      reads chain
      decreases depth
    {
      if base == null then db else Overlay(base.View(), cacheCoins)
    }

    /** Every cache below and including this one has its marks and its memory
        counter in order. */
    ghost predicate Ok()
      requires Linked()
      reads chain
      decreases depth
    {
      if base == null then AllUnspent(db)
      else
        && base.Ok()
        && LayerOk(base.View(), cacheCoins)
        && cachedCoinsUsage == TotalUsage(usageOf, cacheCoins)
    }

    constructor Database(coins: Coins, usageOf: Script -> nat)
      requires AllUnspent(coins) && usageOf([]) == 0
      ensures Linked() && Ok() && base == null && View() == coins && fresh(chain)
    {
      base, this.usageOf := null, usageOf;
      db, cacheCoins, cachedCoinsUsage := coins, map[], 0;
      depth, chain := 0, {this};
    }

    constructor Cache(baseIn: CoinsView, usageOf: Script -> nat)
      requires baseIn.Linked() && baseIn.Ok() && usageOf([]) == 0
      ensures Linked() && Ok() && base == baseIn && View() == baseIn.View() && chain == baseIn.chain + {this}
    {
      base, this.usageOf := baseIn, usageOf;
      db, cacheCoins, cachedCoinsUsage := map[], map[], 0;
      depth, chain := baseIn.depth + 1, baseIn.chain + {this};
      new;
      EmptyLayer(usageOf, baseIn.View());
    }

    lemma ViewUnspent()
      requires Linked() && Ok()
      ensures AllUnspent(View())
      decreases depth
    {
      if base != null {
        base.ViewUnspent();
        OverlayUnspent(base.View(), cacheCoins);
      }
    }

    /** Look an outpoint up here or below, keeping a copy of what is found. */
    method FetchCoin(outpoint: OutPoint) returns (found: bool)
      requires Linked() && Ok() && base != null
      modifies chain
      ensures Ok() && View() == old(View()) && base.View() == old(base.View())
      ensures cacheCoins == Fetched(old(base.View()), old(cacheCoins), outpoint)
      ensures found <==> outpoint in cacheCoins
      decreases depth, 0
    {
      hide Overlay, LayerOk, TotalUsage;
      if outpoint in cacheCoins {
        return true;
      }
      var have, tmp := base.GetCoin(outpoint);
      base.ViewUnspent();
      FetchKeeps(base.View(), cacheCoins, outpoint);
      if !have {
        return false;
      }
      TotalUpdate(usageOf, cacheCoins, outpoint, Entry(tmp, false, false));
      assert cacheCoins - {outpoint} == cacheCoins;
      cacheCoins := cacheCoins[outpoint := Entry(tmp, false, IsSpent(tmp))];
      cachedCoinsUsage := cachedCoinsUsage + usageOf(tmp.out.scriptPubKey);
      found := true;
    }

    method GetCoin(outpoint: OutPoint) returns (found: bool, coin: Coin)
      requires Linked() && Ok()
      modifies chain
      ensures Ok() && View() == old(View())
      ensures found <==> outpoint in View()
      ensures found ==> coin == View()[outpoint]
      decreases depth, 1
    {
      if base == null {
        if outpoint in db {
          return true, db[outpoint];
        }
        return false, NULL_COIN;
      }
      var fetched := FetchCoin(outpoint);
      if fetched {
        coin := cacheCoins[outpoint].coin;
        return !IsSpent(coin), coin;
      }
      return false, NULL_COIN;
    }

    method AccessCoin(outpoint: OutPoint) returns (coin: Coin)
      requires Linked() && Ok() && base != null
      modifies chain
      ensures Ok() && View() == old(View())
      ensures coin == if outpoint in View() then View()[outpoint] else NULL_COIN
    {
      var fetched := FetchCoin(outpoint);
      if fetched {
        coin := cacheCoins[outpoint].coin;
        assert EntryOk(base.View(), outpoint, cacheCoins[outpoint]);
      } else {
        coin := NULL_COIN;
      }
    }

    method HaveCoin(outpoint: OutPoint) returns (have: bool)
      requires Linked() && Ok() && base != null
      modifies chain
      ensures Ok() && View() == old(View()) && base.View() == old(base.View())
      ensures have <==> outpoint in View()
    {
      var fetched := FetchCoin(outpoint);
      have := fetched && !IsSpent(cacheCoins[outpoint].coin);
    }

    /** Add an unspent coin. Throws rather than overwrite a cached coin it was
        told not to; by then the memory counter has already changed. A cache in
        order stays so exactly when overwriting is allowed or nothing was visible. */
    method AddCoin(outpoint: OutPoint, coin: Coin, possibleOverwrite: bool) returns (threw: bool)
      requires Linked() && base != null && !IsSpent(coin)
      modifies this
      ensures threw <==> !IsUnspendable(coin.out.scriptPubKey)
                         && Overwrites(old(cacheCoins), outpoint, possibleOverwrite)
      ensures cacheCoins == if threw || IsUnspendable(coin.out.scriptPubKey) then old(cacheCoins)
                            else Added(old(cacheCoins), outpoint, coin, possibleOverwrite)
      ensures !threw ==> View() == WithCoin(old(View()), outpoint, coin)
      ensures threw ==>
                cachedCoinsUsage == old(cachedCoinsUsage) - usageOf(old(cacheCoins)[outpoint].coin.out.scriptPubKey)
      ensures !threw && old(cachedCoinsUsage == TotalUsage(usageOf, cacheCoins)) ==>
                cachedCoinsUsage == TotalUsage(usageOf, cacheCoins)
      ensures old(Ok()) && !threw ==>
                (Ok() <==> IsUnspendable(coin.out.scriptPubKey) || possibleOverwrite || outpoint !in old(View()))
      ensures possibleOverwrite || outpoint !in old(View()) ==> !threw
    {
      hide Overlay, LayerOk, TotalUsage;
      ghost var layer := cacheCoins;
      NotSeen(base.View(), layer, outpoint, possibleOverwrite);
      if IsUnspendable(coin.out.scriptPubKey) {
        return false;
      }
      var e := if outpoint in cacheCoins then cacheCoins[outpoint] else Entry(NULL_COIN, false, false);
      if outpoint in cacheCoins {
        TotalMinus(usageOf, cacheCoins, outpoint);
        cachedCoinsUsage := cachedCoinsUsage - usageOf(e.coin.out.scriptPubKey);
      } else {
        assert layer - {outpoint} == layer;
      }
      var isFresh := false;
      if !possibleOverwrite {
        if !IsSpent(e.coin) {
          return true;
        }
        isFresh := !e.dirty;
      }
      if LayerOk(base.View(), layer) {
        AddIff(base.View(), layer, outpoint, coin, possibleOverwrite);
      }
      AddView(base.View(), layer, outpoint, coin, possibleOverwrite);
      cacheCoins := cacheCoins[outpoint := Entry(coin, true, e.isFresh || isFresh)];
      TotalUpdate(usageOf, layer, outpoint, cacheCoins[outpoint]);
      cachedCoinsUsage := cachedCoinsUsage + usageOf(coin.out.scriptPubKey);
      threw := false;
    }

    /** Spend a coin. The answer is true also for a spend already recorded in
        this cache. */
    method SpendCoin(outpoint: OutPoint) returns (spent: bool, moveout: Coin)
      requires Linked() && Ok() && base != null
      modifies chain
      ensures Ok() && View() == old(View()) - {outpoint} && base.View() == old(base.View())
      ensures spent <==> outpoint in old(View()) || outpoint in old(cacheCoins)
      ensures moveout == if outpoint in old(View()) then old(View())[outpoint] else NULL_COIN
    {
      hide Overlay, LayerOk, TotalUsage;
      ghost var view := View();
      if outpoint !in cacheCoins {
        SeenOutside(base.View(), cacheCoins, outpoint);
      }
      var fetched := FetchCoin(outpoint);
      SeenAt(base.View(), cacheCoins, outpoint);
      if !fetched {
        assert view - {outpoint} == view;
        return false, NULL_COIN;
      }
      SpendKeeps(base.View(), cacheCoins, outpoint);
      TotalMinus(usageOf, cacheCoins, outpoint);
      TotalUpdate(usageOf, cacheCoins, outpoint, Entry(NULL_COIN, true, false));
      cachedCoinsUsage := cachedCoinsUsage - usageOf(cacheCoins[outpoint].coin.out.scriptPubKey);
      moveout := cacheCoins[outpoint].coin;
      if cacheCoins[outpoint].isFresh {
        cacheCoins := cacheCoins - {outpoint};
      } else {
        cacheCoins := cacheCoins[outpoint := Entry(NULL_COIN, true, cacheCoins[outpoint].isFresh)];
      }
      spent := true;
    }

    /** Drop an unmodified entry. */
    method Uncache(outpoint: OutPoint)
      requires Linked() && Ok() && base != null
      modifies this
      ensures Ok() && View() == old(View()) && cacheCoins == Uncached(old(cacheCoins), outpoint)
    {
      hide Overlay, LayerOk, TotalUsage;
      UncacheKeeps(base.View(), cacheCoins, outpoint);
      if outpoint in cacheCoins && !cacheCoins[outpoint].dirty && !cacheCoins[outpoint].isFresh {
        TotalMinus(usageOf, cacheCoins, outpoint);
        cachedCoinsUsage := cachedCoinsUsage - usageOf(cacheCoins[outpoint].coin.out.scriptPubKey);
        cacheCoins := cacheCoins - {outpoint};
      }
    }

    /** Take over a child's changed entries. */
    method BatchWrite(mapCoins: Layer) returns (threw: bool)
      requires Linked() && Ok()
      modifies this
      ensures threw <==> base != null && Misapplied(old(cacheCoins), mapCoins)
      ensures base == null ==> db == Written(old(db), mapCoins)
      ensures base != null && !threw ==> cacheCoins == Merged(old(cacheCoins), mapCoins)
      ensures threw ==>
                && cachedCoinsUsage == TotalUsage(usageOf, cacheCoins)
                && exists done :: PartlyMerged(old(cacheCoins), mapCoins, done, cacheCoins)
      ensures LayerOk(old(View()), mapCoins) ==>
                !threw && Ok() && View() == Overlay(old(View()), mapCoins)
    {
      if base == null {
        WriteDatabase(mapCoins);
        if LayerOk(old(View()), mapCoins) {
          WriteKeeps(old(db), mapCoins);
          OverlayUnspent(old(db), mapCoins);
        }
        return false;
      }
      if LayerOk(old(View()), mapCoins) {
        MergeKeeps(base.View(), cacheCoins, mapCoins);
      }
      hide Overlay, LayerOk, TotalUsage;
      threw := MergeIntoCache(mapCoins);
    }

    method WriteDatabase(mapCoins: Layer)
      modifies this`db
      ensures db == Written(old(db), mapCoins)
    {
      hide Written;
      ghost var us := db;
      var todo := mapCoins;
      while todo != map[]
        invariant forall o :: o in todo ==> o in mapCoins && todo[o] == mapCoins[o]
        invariant forall o ::
          CoinAt(db, o) == if o in mapCoins && o !in todo then WrittenAt(us, mapCoins, o) else CoinAt(us, o)
        decreases |todo|
      {
        var o :| o in todo;
        assert CoinAt(db, o) == CoinAt(us, o);
        if todo[o].dirty {
          if IsSpent(todo[o].coin) {
            db := db - {o};
          } else {
            db := db[o := todo[o].coin];
          }
        }
        todo := todo - {o};
      }
      WrittenIs(us, mapCoins, db);
    }

    method MergeIntoCache(mapCoins: Layer) returns (threw: bool)
      requires cachedCoinsUsage == TotalUsage(usageOf, cacheCoins)
      modifies this`cacheCoins, this`cachedCoinsUsage
      ensures threw <==> Misapplied(old(cacheCoins), mapCoins)
      ensures !threw ==> cacheCoins == Merged(old(cacheCoins), mapCoins)
      ensures threw ==> exists done :: PartlyMerged(old(cacheCoins), mapCoins, done, cacheCoins)
      ensures cachedCoinsUsage == TotalUsage(usageOf, cacheCoins)
    {
      hide TotalUsage, Merged;
      ghost var us := cacheCoins;
      var todo := mapCoins;
      while todo != map[]
        invariant forall o :: o in todo ==> o in mapCoins && todo[o] == mapCoins[o]
        invariant forall o ::
          Lookup(cacheCoins, o) == if o in mapCoins && o !in todo then MergedAt(us, mapCoins, o) else Lookup(us, o)
        invariant forall o :: o in mapCoins && o !in todo ==> !MisappliedAt(us, mapCoins, o)
        invariant cachedCoinsUsage == TotalUsage(usageOf, cacheCoins)
        decreases |todo|
      {
        var o :| o in todo;
        assert Lookup(cacheCoins, o) == Lookup(us, o);
        if todo[o].dirty {
          threw := MergeOne(o, todo[o]);
          if threw {
            assert MisappliedAt(us, mapCoins, o);
            StoppedAt(us, mapCoins, todo, cacheCoins, o);
            return;
          }
        }
        todo := todo - {o};
      }
      threw := false;
      MergedIs(us, mapCoins, cacheCoins);
    }

    method MergeOne(o: OutPoint, child: Entry) returns (threw: bool)
      requires cachedCoinsUsage == TotalUsage(usageOf, cacheCoins)
      modifies this`cacheCoins, this`cachedCoinsUsage
      ensures threw <==> child.isFresh && o in old(cacheCoins) && !IsSpent(old(cacheCoins)[o].coin)
      ensures threw ==> cacheCoins == old(cacheCoins)
      ensures !threw ==>
                forall p :: Lookup(cacheCoins, p) ==
                  if p == o then MergedEntry(Lookup(old(cacheCoins), o), child) else Lookup(old(cacheCoins), p)
      ensures cachedCoinsUsage == TotalUsage(usageOf, cacheCoins)
    {
      hide TotalUsage;
      threw := false;
      if o !in cacheCoins {
        if !(child.isFresh && IsSpent(child.coin)) {
          assert cacheCoins - {o} == cacheCoins;
          TotalUpdate(usageOf, cacheCoins, o, Entry(child.coin, true, child.isFresh));
          cacheCoins := cacheCoins[o := Entry(child.coin, true, child.isFresh)];
          cachedCoinsUsage := cachedCoinsUsage + usageOf(child.coin.out.scriptPubKey);
        }
      } else {
        var us := cacheCoins[o];
        if child.isFresh && !IsSpent(us.coin) {
          return true;
        }
        TotalMinus(usageOf, cacheCoins, o);
        cachedCoinsUsage := cachedCoinsUsage - usageOf(us.coin.out.scriptPubKey);
        if us.isFresh && IsSpent(child.coin) {
          cacheCoins := cacheCoins - {o};
        } else {
          TotalUpdate(usageOf, cacheCoins, o, Entry(child.coin, true, us.isFresh));
          cacheCoins := cacheCoins[o := Entry(child.coin, true, us.isFresh)];
          cachedCoinsUsage := cachedCoinsUsage + usageOf(child.coin.out.scriptPubKey);
        }
      }
    }

    /** Push everything down one level: this cache and the one below it now
        both show what this cache showed before, and this cache is empty. */
    method Flush()
      requires Linked() && Ok() && base != null
      modifies this, base
      ensures Ok() && View() == old(View()) && base.View() == old(View())
      ensures cacheCoins == map[] && cachedCoinsUsage == 0
    {
      hide Overlay, LayerOk, TotalUsage, Merged, Written, Misapplied;
      var threw := base.BatchWrite(cacheCoins);
      cacheCoins := map[];
      cachedCoinsUsage := 0;
      EmptyLayer(usageOf, base.View());
    }

    /** Flush the cache that lies `below` levels under this one. */
    method FlushBelow(below: nat)
      requires Linked() && Ok()
      modifies chain
      ensures Ok() && View() == old(View())
      decreases depth
    {
      if base == null {
        return;
      }
      if below == 0 {
        Flush();
      } else {
        base.FlushBelow(below - 1);
      }
    }

    /** Flush this cache, then the one below it, and so on down. */
    method FlushAll()
      requires Linked() && Ok()
      modifies chain
      ensures Ok() && View() == old(View()) && Bottom().db == old(View())
      decreases depth
    {
      if base != null {
        Flush();
        base.FlushAll();
      }
    }

    ghost function Bottom(): CoinsView
      requires Linked()
      ensures Bottom() in chain
      decreases depth
    {
      if base == null then this else base.Bottom()
    }

    /** Add all outputs of a transaction, looking each up first or not. Without the
        lookup it throws exactly when an output that may not be overwritten is cached,
        having added those before it; and the cache stays in order exactly when the
        outputs may overwrite or none was visible. */
    method AddCoins(tx: Transaction, nHeight: nat, checkForOverwrite: bool) returns (threw: bool)
      requires Linked() && Ok() && base != null
      requires forall out :: out in tx.vout ==> out.nValue != -1
      modifies chain
      ensures base.View() == old(base.View())
      ensures threw <==> !checkForOverwrite && exists i :: 0 <= i < |tx.vout| && Blocked(old(cacheCoins), tx, i)
      ensures !threw ==> View() == WithOutputs(old(View()), tx, nHeight, |tx.vout|)
      ensures !threw ==>
                (Ok() <==> checkForOverwrite || tx.isCoinBase || NoneSeen(old(View()), tx, |tx.vout|))
      ensures threw ==>
                exists n :: 0 <= n < |tx.vout| && Blocked(old(cacheCoins), tx, n)
                  && (forall i :: 0 <= i < n ==> !Blocked(old(cacheCoins), tx, i))
                  && cacheCoins == AddedOutputs(old(cacheCoins), tx, nHeight, n)
    {
      hide Overlay, LayerOk, TotalUsage, Added, AddedOutputs, WithOutputs;
      if checkForOverwrite {
        AddCoinsChecked(tx, nHeight);
        return false;
      }
      ghost var layer, parent := cacheCoins, base.View();
      OutputsNone(layer, View(), tx, nHeight);
      for i := 0 to |tx.vout|
        invariant base.Ok() && base.View() == parent && cachedCoinsUsage == TotalUsage(usageOf, cacheCoins)
        invariant cacheCoins == AddedOutputs(layer, tx, nHeight, i)
        invariant forall j :: 0 <= j < i ==> !Blocked(layer, tx, j)
        modifies this
      {
        assert tx.vout[i] in tx.vout;
        OutputsUntouched(layer, tx, nHeight, i, i);
        OutputsStep(layer, tx, nHeight, i);
        threw := AddCoin(OutPoint(tx.txid, i), OutputCoin(tx, nHeight, i), tx.isCoinBase);
        if threw {
          assert Blocked(layer, tx, i);
          return;
        }
      }
      threw := false;
      assert forall i :: 0 <= i < |tx.vout| ==> tx.vout[i] in tx.vout;
      AddedOutputsIff(parent, layer, tx, nHeight, |tx.vout|);
    }

    method AddCoinsChecked(tx: Transaction, nHeight: nat)
      requires Linked() && Ok() && base != null
      requires forall out :: out in tx.vout ==> out.nValue != -1
      modifies chain
      ensures Ok() && View() == WithOutputs(old(View()), tx, nHeight, |tx.vout|) && base.View() == old(base.View())
    {
      hide Overlay, LayerOk, TotalUsage;
      ghost var coins := View();
      for i := 0 to |tx.vout|
        invariant Ok() && View() == WithOutputs(coins, tx, nHeight, i) && base.View() == old(base.View())
      {
        assert tx.vout[i] in tx.vout;
        var overwrite := HaveCoin(OutPoint(tx.txid, i));
        var threw := AddCoin(OutPoint(tx.txid, i), OutputCoin(tx, nHeight, i), overwrite);
      }
    }

    /** Any run of operations on this cache, with flushes at any levels of the
        stack in between, shows what the plain coin set would hold. */
    method Execute(ops: seq<Op>)
      requires Linked() && Ok() && base != null && Allowed(View(), ops)
      modifies chain
      ensures Ok() && View() == FlatRun(old(View()), ops)
    {
      hide Overlay, LayerOk, TotalUsage;
      assert ops[0..] == ops;
      for i := 0 to |ops|
        invariant Ok() && Allowed(View(), ops[i..])
        invariant FlatRun(View(), ops[i..]) == FlatRun(old(View()), ops)
      {
        assert ops[i..][1..] == ops[i + 1..];
        match ops[i] {
          case Add(o, coin, overwrite) => var _ := AddCoin(o, coin, overwrite);
          case Spend(o) => var _, _ := SpendCoin(o);
          case Look(o) => var _ := AccessCoin(o);
          case Drop(o) => Uncache(o);
          case FlushLevel(below) => FlushBelow(below);
        }
      }
    }
  }
}
