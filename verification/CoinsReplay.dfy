/** Recovery of the coin database after a crash: blocks are rolled forward over
    whatever part of their changes was written. */
module CoinsReplay {
  import opened CoinLayers
  import opened CoinsCache
  import opened CoinsDb
  import opened Options

  datatype BlockTx = BlockTx(vin: seq<OutPoint>, tx: Transaction)

  datatype Block = Block(nHeight: nat, vtx: seq<BlockTx>)

  // ---------- what blocks do to the plain coin set ----------

  ghost function Inputs(t: BlockTx): seq<OutPoint> { if t.tx.isCoinBase then [] else t.vin }

  ghost function Spent(coins: Coins, vin: seq<OutPoint>): Coins {
    if vin == [] then coins else Spent(coins, vin[..|vin| - 1]) - {vin[|vin| - 1]}
  }

  ghost function RolledTx(coins: Coins, t: BlockTx, nHeight: nat): Coins {
    WithOutputs(Spent(coins, Inputs(t)), t.tx, nHeight, |t.tx.vout|)
  }

  ghost function RolledTxs(coins: Coins, vtx: seq<BlockTx>, nHeight: nat): Coins {
    if vtx == [] then coins else RolledTx(RolledTxs(coins, vtx[..|vtx| - 1], nHeight), vtx[|vtx| - 1], nHeight)
  }

  ghost function Rolled(coins: Coins, blocks: seq<Block>): Coins {
    if blocks == [] then coins
    else
      var n := |blocks| - 1;
      RolledTxs(Rolled(coins, blocks[..n]), blocks[n].vtx, blocks[n].nHeight)
  }

  ghost predicate TxsOk(vtx: seq<BlockTx>) {
    forall i :: 0 <= i < |vtx| ==> forall out :: out in vtx[i].tx.vout ==> out.nValue != -1
  }

  ghost predicate BlocksOk(blocks: seq<Block>) { forall i :: 0 <= i < |blocks| ==> TxsOk(blocks[i].vtx) }

  // ---------- each outpoint is set or left alone, whatever the coins are ----------

  /** At this outpoint c became c' and d became d', either both set alike or both
      left alone. */
  ghost predicate Alike(c: Coins, d: Coins, c': Coins, d': Coins, o: OutPoint) {
    || CoinAt(c', o) == CoinAt(d', o)
    || (CoinAt(c', o) == CoinAt(c, o) && CoinAt(d', o) == CoinAt(d, o))
  }

  lemma {:induction false} SpentAlike(c: Coins, d: Coins, vin: seq<OutPoint>, o: OutPoint)
    ensures Alike(c, d, Spent(c, vin), Spent(d, vin), o)
  {
    if vin != [] { SpentAlike(c, d, vin[..|vin| - 1], o); }
  }

  lemma {:induction false} OutputsAlike(c: Coins, d: Coins, tx: Transaction, nHeight: nat, n: nat, o: OutPoint)
    requires n <= |tx.vout|
    ensures Alike(c, d, WithOutputs(c, tx, nHeight, n), WithOutputs(d, tx, nHeight, n), o)
  {
    if n > 0 { OutputsAlike(c, d, tx, nHeight, n - 1, o); }
  }

  /** What is equal stays equal. */
  lemma {:induction false} SpentSame(c: Coins, d: Coins, vin: seq<OutPoint>, o: OutPoint)
    requires CoinAt(c, o) == CoinAt(d, o)
    ensures CoinAt(Spent(c, vin), o) == CoinAt(Spent(d, vin), o)
  {
    if vin != [] { SpentSame(c, d, vin[..|vin| - 1], o); }
  }

  lemma {:induction false} OutputsSame(c: Coins, d: Coins, tx: Transaction, nHeight: nat, n: nat, o: OutPoint)
    requires n <= |tx.vout| && CoinAt(c, o) == CoinAt(d, o)
    ensures CoinAt(WithOutputs(c, tx, nHeight, n), o) == CoinAt(WithOutputs(d, tx, nHeight, n), o)
  {
    if n > 0 { OutputsSame(c, d, tx, nHeight, n - 1, o); }
  }

  lemma RolledTxAlike(c: Coins, d: Coins, t: BlockTx, nHeight: nat, o: OutPoint)
    ensures Alike(c, d, RolledTx(c, t, nHeight), RolledTx(d, t, nHeight), o)
    ensures CoinAt(c, o) == CoinAt(d, o) ==> CoinAt(RolledTx(c, t, nHeight), o) == CoinAt(RolledTx(d, t, nHeight), o)
  {
    hide Spent, WithOutputs, CoinAt;
    var c1, d1 := Spent(c, Inputs(t)), Spent(d, Inputs(t));
    SpentAlike(c, d, Inputs(t), o);
    OutputsAlike(c1, d1, t.tx, nHeight, |t.tx.vout|, o);
    if CoinAt(c1, o) == CoinAt(d1, o) { OutputsSame(c1, d1, t.tx, nHeight, |t.tx.vout|, o); }
    if CoinAt(c, o) == CoinAt(d, o) { SpentSame(c, d, Inputs(t), o); }
  }

  lemma {:induction false} RolledTxsAlike(c: Coins, d: Coins, vtx: seq<BlockTx>, nHeight: nat, o: OutPoint)
    ensures Alike(c, d, RolledTxs(c, vtx, nHeight), RolledTxs(d, vtx, nHeight), o)
    ensures CoinAt(c, o) == CoinAt(d, o) ==>
              CoinAt(RolledTxs(c, vtx, nHeight), o) == CoinAt(RolledTxs(d, vtx, nHeight), o)
  {
    hide RolledTx, CoinAt;
    if vtx != [] {
      var n := |vtx| - 1;
      RolledTxsAlike(c, d, vtx[..n], nHeight, o);
      RolledTxAlike(RolledTxs(c, vtx[..n], nHeight), RolledTxs(d, vtx[..n], nHeight), vtx[n], nHeight, o);
    }
  }

  lemma {:induction false} RolledAlike(c: Coins, d: Coins, blocks: seq<Block>, o: OutPoint)
    ensures Alike(c, d, Rolled(c, blocks), Rolled(d, blocks), o)
    ensures CoinAt(c, o) == CoinAt(d, o) ==> CoinAt(Rolled(c, blocks), o) == CoinAt(Rolled(d, blocks), o)
  {
    hide RolledTxs, CoinAt;
    if blocks != [] {
      var n := |blocks| - 1;
      RolledAlike(c, d, blocks[..n], o);
      RolledTxsAlike(Rolled(c, blocks[..n]), Rolled(d, blocks[..n]), blocks[n].vtx, blocks[n].nHeight, o);
    }
  }

  // ---------- partly written ----------

  /** Every outpoint is as it was or as it shall be. */
  ghost predicate Between(before: Coins, after: Coins, d: Coins) {
    forall o :: CoinAt(d, o) == CoinAt(before, o) || CoinAt(d, o) == CoinAt(after, o)
  }

  /** Rolling the blocks forward over any part of their changes completes them. */
  lemma RollsToEnd(before: Coins, blocks: seq<Block>, d: Coins)
    requires Between(before, Rolled(before, blocks), d)
    ensures Rolled(d, blocks) == Rolled(before, blocks)
  {
    hide Rolled;
    var after := Rolled(before, blocks);
    forall o
      ensures CoinAt(Rolled(d, blocks), o) == CoinAt(after, o)
    {
      assert CoinAt(d, o) == CoinAt(before, o) || CoinAt(d, o) == CoinAt(after, o);
      RolledAlike(d, before, blocks, o);
    }
    SameCoins(Rolled(d, blocks), after);
  }

  lemma SameCoins(a: Coins, b: Coins)
    requires forall o :: CoinAt(a, o) == CoinAt(b, o)
    ensures a == b
  {
    forall o
      ensures o in a <==> o in b
      ensures o in a ==> a[o] == b[o]
    {
      assert CoinAt(a, o) == CoinAt(b, o);
    }
  }

  /** A layer whose writing would finish leaves, written in part, a state between. */
  lemma PartBetween(before: Coins, after: Coins, d: Coins, layer: Layer, done: set<OutPoint>)
    requires Between(before, after, d) && Written(d, layer) == after
    ensures Between(before, after, Written(d, Only(layer, done)))
  {
    hide Written;
    forall o
      ensures var e := CoinAt(Written(d, Only(layer, done)), o); e == CoinAt(before, o) || e == CoinAt(after, o)
    {
      WrittenPoint(d, Only(layer, done), o);
      WrittenPoint(d, layer, o);
      assert CoinAt(d, o) == CoinAt(before, o) || CoinAt(d, o) == CoinAt(after, o);
    }
  }

  lemma BetweenUnspent(before: Coins, after: Coins, d: Coins)
    requires AllUnspent(before) && AllUnspent(after) && Between(before, after, d)
    ensures AllUnspent(d)
  {
    forall o | o in d
      ensures !IsSpent(d[o])
    {
      assert CoinAt(d, o) == CoinAt(before, o) || CoinAt(d, o) == CoinAt(after, o);
    }
  }

  // ---------- the operations ----------

  /** Spend the inputs and add the outputs of every transaction, whether or not that
      was done before. */
  method RollforwardBlock(block: Block, cache: CoinsView)
    requires TxsOk(block.vtx) && cache.Linked() && cache.Ok() && cache.base != null
    modifies cache.chain
    ensures cache.Ok() && cache.View() == RolledTxs(old(cache.View()), block.vtx, block.nHeight)
    ensures cache.base.View() == old(cache.base.View())
  {
    hide Overlay, LayerOk, TotalUsage, RolledTx;
    ghost var coins := cache.View();
    assert block.vtx[..0] == [];
    for i := 0 to |block.vtx|
      invariant cache.Ok() && cache.base.View() == old(cache.base.View())
      invariant cache.View() == RolledTxs(coins, block.vtx[..i], block.nHeight)
    {
      assert block.vtx[..i + 1][..i] == block.vtx[..i];
      RollforwardTx(block.vtx[i], block.nHeight, cache);
    }
    assert block.vtx[..|block.vtx|] == block.vtx;
  }

  method RollforwardTx(t: BlockTx, nHeight: nat, cache: CoinsView)
    requires forall out :: out in t.tx.vout ==> out.nValue != -1
    requires cache.Linked() && cache.Ok() && cache.base != null
    modifies cache.chain
    ensures cache.Ok() && cache.View() == RolledTx(old(cache.View()), t, nHeight)
    ensures cache.base.View() == old(cache.base.View())
  {
    hide Overlay, LayerOk, TotalUsage, WithOutputs;
    ghost var coins := cache.View();
    if !t.tx.isCoinBase {
      assert t.vin[..0] == [];
      for i := 0 to |t.vin|
        invariant cache.Ok() && cache.base.View() == old(cache.base.View())
        invariant cache.View() == Spent(coins, t.vin[..i])
      {
        assert t.vin[..i + 1][..i] == t.vin[..i];
        var _, _ := cache.SpendCoin(t.vin[i]);
      }
      assert t.vin[..|t.vin|] == t.vin;
    }
    var _ := cache.AddCoins(t.tx, nHeight, true);
  }

  /** The cache that rolling forward leaves, over the coins on disk. */
  method ReplayBlocks(coins: Coins, blocks: seq<Block>, usageOf: Script -> nat) returns (layer: Layer)
    requires AllUnspent(coins) && BlocksOk(blocks) && usageOf([]) == 0
    ensures Written(coins, layer) == Rolled(coins, blocks)
  {
    hide Overlay, TotalUsage, RolledTxs, Written;
    var db := new CoinsView.Database(coins, usageOf);
    var cache := new CoinsView.Cache(db, usageOf);
    assert blocks[..0] == [];
    for i := 0 to |blocks|
      invariant cache.Ok() && db.View() == coins && cache.View() == Rolled(coins, blocks[..i])
    {
      assert blocks[..i + 1][..i] == blocks[..i];
      RollforwardBlock(blocks[i], cache);
    }
    assert blocks[..|blocks|] == blocks;
    layer := cache.cacheCoins;
    WriteKeeps(coins, layer);
  }

  lemma MidwayBetween(d0: Disk, layer: Layer, hashBlock: nat, d: Disk, before: Coins, after: Coins)
    requires Midway(d0, layer, hashBlock, d) && Between(before, after, d0.coins) && Written(d0.coins, layer) == after
    ensures Between(before, after, d.coins)
  {
    hide Written, Between;
    if d != d0 {
      var done :| done <= layer.Keys && d == Marked(d0, layer, hashBlock, done);
      PartBetween(before, after, d0.coins, layer, done);
    }
  }

  /** The disk in the middle of a transition to a block. */
  ghost predicate Interrupted(d: Disk, before: Coins, after: Coins, hashBlock: nat) {
    d.best == 0 && |d.heads| == 2 && d.heads[0] == hashBlock && Between(before, after, d.coins)
  }

  /** One restart: replay and flush, which may be cut short again. */
  method Restart(database: Database, ghost before: Coins, blocks: seq<Block>, hashBlock: nat, usageOf: Script -> nat,
                 full: seq<Change> -> bool, stopAt: Option<nat>) returns (done: bool)
    requires Interrupted(database.disk, before, Rolled(before, blocks), hashBlock) && hashBlock != 0
    requires AllUnspent(before) && AllUnspent(Rolled(before, blocks)) && BlocksOk(blocks) && usageOf([]) == 0
    modifies database
    ensures done ==> database.disk == Disk(Rolled(before, blocks), hashBlock, [])
    ensures !done ==> stopAt.Some? && Interrupted(database.disk, before, Rolled(before, blocks), hashBlock)
  {
    hide Written, Rolled, Between, Midway, BlocksOk;
    ghost var d0 := database.disk;
    BetweenUnspent(before, Rolled(before, blocks), d0.coins);
    RollsToEnd(before, blocks, d0.coins);
    var layer := ReplayBlocks(database.disk.coins, blocks, usageOf);
    done := database.BatchWrite(layer, hashBlock, full, stopAt);
    if !done {
      MidwayMarked(d0, layer, hashBlock, database.disk);
      MidwayBetween(d0, layer, hashBlock, database.disk, before, Rolled(before, blocks));
    }
  }

  /** Flush a cache that shows the coins after some blocks, with a crash during the
      flush and any number of crashes during recovery: the database ends as it was or
      exactly after those blocks, with no marker left. */
  method FlushAndRecover(database: Database, layer: Layer, blocks: seq<Block>, hashBlock: nat, usageOf: Script -> nat,
                         full: seq<Change> -> bool, first: Option<nat>, stops: seq<nat>)
    requires database.disk.heads == [] && hashBlock != 0
    requires AllUnspent(database.disk.coins) && BlocksOk(blocks) && usageOf([]) == 0
    requires LayerOk(database.disk.coins, layer)
    requires Overlay(database.disk.coins, layer) == Rolled(database.disk.coins, blocks)
    modifies database
    ensures || database.disk == old(database.disk)
            || database.disk == Disk(Rolled(old(database.disk).coins, blocks), hashBlock, [])
    ensures first == None ==> database.disk == Disk(Rolled(old(database.disk).coins, blocks), hashBlock, [])
  {
    hide Written, Rolled, Between, Midway, BlocksOk, Overlay, LayerOk;
    ghost var d0 := database.disk;
    ghost var after := Rolled(d0.coins, blocks);
    WriteKeeps(d0.coins, layer);
    OverlayUnspent(d0.coins, layer);
    var done := database.BatchWrite(layer, hashBlock, full, first);
    if done { return; }
    MidwayMarked(d0, layer, hashBlock, database.disk);
    if database.disk.heads == [] { return; }
    AtStart(d0.coins, after);
    MidwayBetween(d0, layer, hashBlock, database.disk, d0.coins, after);
    for i := 0 to |stops|
      invariant Interrupted(database.disk, d0.coins, after, hashBlock)
    {
      done := Restart(database, d0.coins, blocks, hashBlock, usageOf, full, Some(stops[i]));
      if done { return; }
    }
    done := Restart(database, d0.coins, blocks, hashBlock, usageOf, full, None);
  }

  lemma AtStart(before: Coins, after: Coins)
    ensures Between(before, after, before)
  {
  }
}
