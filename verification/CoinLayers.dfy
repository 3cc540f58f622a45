/** One layer of the coin cache hierarchy as a value: entries with DIRTY and
    FRESH marks over the coins the parent shows. */
module CoinLayers {
  import opened Options

  type Script = seq<bv8>

  const OP_RETURN: bv8 := 0x6a
  const MAX_SCRIPT_SIZE: nat := 10000

  datatype OutPoint = OutPoint(hash: nat, n: nat)

  datatype TxOut = TxOut(nValue: int, scriptPubKey: Script)

  datatype Coin = Coin(out: TxOut, fCoinBase: bool, nHeight: nat, fCoinStake: bool)

  /** What Coin::Clear leaves. */
  const NULL_COIN: Coin := Coin(TxOut(-1, []), false, 0, false)

  predicate IsSpent(coin: Coin) { coin.out.nValue == -1 }

  predicate IsUnspendable(script: Script) {
    (|script| > 0 && script[0] == OP_RETURN) || |script| > MAX_SCRIPT_SIZE
  }

  datatype Entry = Entry(coin: Coin, dirty: bool, isFresh: bool)

  type Coins = map<OutPoint, Coin>
  type Layer = map<OutPoint, Entry>

  /** The unspent coins seen through a layer. */
  ghost function Overlay(parent: Coins, layer: Layer): Coins {
    map o | o in parent.Keys + layer.Keys && (o in layer ==> !IsSpent(layer[o].coin)) ::
      if o in layer then layer[o].coin else parent[o]
  }

  /** The four states an entry can be in: a coin created here, a coin changed
      here, an untouched copy of the parent's coin, or a spend the parent has
      not heard of. A FRESH entry hides no coin of the parent. */
  ghost predicate EntryOk(parent: Coins, o: OutPoint, e: Entry) {
    if IsSpent(e.coin) then e == Entry(NULL_COIN, true, false)
    else if e.isFresh then e.dirty && o !in parent
    else e.dirty || (o in parent && parent[o] == e.coin)
  }

  ghost predicate LayerOk(parent: Coins, layer: Layer) {
    forall o :: o in layer ==> EntryOk(parent, o, layer[o])
  }

  ghost predicate AllUnspent(coins: Coins) {
    forall o :: o in coins ==> !IsSpent(coins[o])
  }

  lemma OverlayUnspent(parent: Coins, layer: Layer)
    requires AllUnspent(parent)
    ensures AllUnspent(Overlay(parent, layer))
  {
  }

  // ---------- memory accounting ----------

  ghost function TotalUsage(usageOf: Script -> nat, layer: Layer): int
    decreases |layer|
  {
    if layer == map[] then 0
    else
      var o :| o in layer;
      usageOf(layer[o].coin.out.scriptPubKey) + TotalUsage(usageOf, layer - {o})
  }

  lemma {:induction false} TotalMinus(usageOf: Script -> nat, layer: Layer, o: OutPoint)
    requires o in layer
    ensures TotalUsage(usageOf, layer) ==
            usageOf(layer[o].coin.out.scriptPubKey) + TotalUsage(usageOf, layer - {o})
    decreases |layer|
  {
    var p :| p in layer &&
      TotalUsage(usageOf, layer) == usageOf(layer[p].coin.out.scriptPubKey) + TotalUsage(usageOf, layer - {p});
    if p != o {
      TotalMinus(usageOf, layer - {p}, o);
      TotalMinus(usageOf, layer - {o}, p);
      assert layer - {p} - {o} == layer - {o} - {p};
    }
  }

  lemma TotalUpdate(usageOf: Script -> nat, layer: Layer, o: OutPoint, e: Entry)
    ensures TotalUsage(usageOf, layer[o := e]) ==
            TotalUsage(usageOf, layer - {o}) + usageOf(e.coin.out.scriptPubKey)
  {
    TotalMinus(usageOf, layer[o := e], o);
    assert layer[o := e] - {o} == layer - {o};
  }

  // ---------- what the operations do to the entries ----------

  ghost function Fetched(parent: Coins, layer: Layer, o: OutPoint): Layer {
    if o in layer || o !in parent then layer else layer[o := Entry(parent[o], false, false)]
  }

  /** An add without possible overwrite of a coin that is in the cache. */
  ghost predicate Overwrites(layer: Layer, o: OutPoint, possibleOverwrite: bool) {
    !possibleOverwrite && o in layer && !IsSpent(layer[o].coin)
  }

  ghost function Added(layer: Layer, o: OutPoint, coin: Coin, possibleOverwrite: bool): Layer {
    var wasDirty := o in layer && layer[o].dirty;
    var wasFresh := o in layer && layer[o].isFresh;
    layer[o := Entry(coin, true, wasFresh || (!possibleOverwrite && !wasDirty))]
  }

  ghost function Spent(layer: Layer, o: OutPoint): Layer {
    if o !in layer then layer
    else if layer[o].isFresh then layer - {o}
    else layer[o := Entry(NULL_COIN, true, false)]
  }

  ghost function Uncached(layer: Layer, o: OutPoint): Layer {
    if o in layer && !layer[o].dirty && !layer[o].isFresh then layer - {o} else layer
  }

  /** The parent's entry after a dirty child entry was written to it. */
  ghost function MergedEntry(us: Option<Entry>, child: Entry): Option<Entry> {
    match us
    case None =>
      if child.isFresh && IsSpent(child.coin) then None else Some(Entry(child.coin, true, child.isFresh))
    case Some(e) =>
      if e.isFresh && IsSpent(child.coin) then None else Some(Entry(child.coin, true, e.isFresh))
  }

  ghost function Lookup(layer: Layer, o: OutPoint): Option<Entry> {
    if o in layer then Some(layer[o]) else None
  }

  ghost predicate IsChanged(layer: Layer, o: OutPoint) { o in layer && layer[o].dirty }

  ghost function MergedAt(us: Layer, child: Layer, o: OutPoint): Option<Entry> {
    if IsChanged(child, o) then MergedEntry(Lookup(us, o), child[o]) else Lookup(us, o)
  }

  ghost function Merged(us: Layer, child: Layer): Layer {
    map o | o in us.Keys + child.Keys && MergedAt(us, child, o).Some? :: MergedAt(us, child, o).value
  }

  /** A coin marked FRESH in the child that exists in the parent's cache. */
  ghost predicate Misapplied(us: Layer, child: Layer) {
    exists o :: MisappliedAt(us, child, o)
  }

  ghost predicate MisappliedAt(us: Layer, child: Layer, o: OutPoint) {
    IsChanged(child, o) && child[o].isFresh && o in us && !IsSpent(us[o].coin)
  }

  /** The database after a batch: dirty entries only, spends erase. */
  ghost function WrittenAt(coins: Coins, child: Layer, o: OutPoint): Option<Coin> {
    if !IsChanged(child, o) then CoinAt(coins, o)
    else if IsSpent(child[o].coin) then None
    else Some(child[o].coin)
  }

  ghost function CoinAt(coins: Coins, o: OutPoint): Option<Coin> {
    if o in coins then Some(coins[o]) else None
  }

  ghost function Written(coins: Coins, child: Layer): Coins {
    map o | o in coins.Keys + child.Keys && WrittenAt(coins, child, o).Some? :: WrittenAt(coins, child, o).value
  }

  // ---------- the marks never change what is seen ----------

  lemma FetchKeeps(parent: Coins, layer: Layer, o: OutPoint)
    requires LayerOk(parent, layer) && AllUnspent(parent)
    ensures LayerOk(parent, Fetched(parent, layer, o))
    ensures Overlay(parent, Fetched(parent, layer, o)) == Overlay(parent, layer)
  {
  }

  /** An add keeps the layer in order exactly when it is allowed to overwrite
      or there is no coin to overwrite. */
  lemma AddIff(parent: Coins, layer: Layer, o: OutPoint, coin: Coin, possibleOverwrite: bool)
    requires LayerOk(parent, layer) && !IsSpent(coin) && !Overwrites(layer, o, possibleOverwrite)
    ensures LayerOk(parent, Added(layer, o, coin, possibleOverwrite)) <==>
            possibleOverwrite || o !in Overlay(parent, layer)
  {
    var e := Added(layer, o, coin, possibleOverwrite)[o];
    UpdateOk(parent, layer, o, e);
    if o in layer {
      assert EntryOk(parent, o, layer[o]);
    }
  }

  lemma UpdateOk(parent: Coins, layer: Layer, o: OutPoint, e: Entry)
    requires LayerOk(parent, layer)
    ensures LayerOk(parent, layer[o := e]) <==> EntryOk(parent, o, e)
  {
    assert o in layer[o := e];
  }

  lemma AddView(parent: Coins, layer: Layer, o: OutPoint, coin: Coin, possibleOverwrite: bool)
    requires !IsSpent(coin)
    ensures Overlay(parent, Added(layer, o, coin, possibleOverwrite)) == Overlay(parent, layer)[o := coin]
  {
  }

  lemma EmptyLayer(usageOf: Script -> nat, parent: Coins)
    ensures LayerOk(parent, map[]) && Overlay(parent, map[]) == parent && TotalUsage(usageOf, map[]) == 0
  {
  }

  /** What goes wrong otherwise: the coin added in error, once spent, uncovers
      the parent's coin that it hid. */
  lemma AddMisused(parent: Coins, layer: Layer, o: OutPoint, coin: Coin)
    requires LayerOk(parent, layer) && !IsSpent(coin) && !Overwrites(layer, o, false)
    requires o in Overlay(parent, layer)
    ensures var layer' := Spent(Added(layer, o, coin, false), o);
            o in Overlay(parent, layer') && Overlay(parent, layer')[o] == parent[o]
  {
  }

  lemma SpendKeeps(parent: Coins, layer: Layer, o: OutPoint)
    requires LayerOk(parent, layer) && (o in parent ==> o in layer)
    ensures LayerOk(parent, Spent(layer, o))
    ensures Overlay(parent, Spent(layer, o)) == Overlay(parent, layer) - {o}
  {
  }

  lemma UncacheKeeps(parent: Coins, layer: Layer, o: OutPoint)
    requires LayerOk(parent, layer)
    ensures LayerOk(parent, Uncached(layer, o))
    ensures Overlay(parent, Uncached(layer, o)) == Overlay(parent, layer)
  {
  }

  /** Writing a child's entries into its parent makes the parent show what the
      child showed, with the parent's own marks in order again; the FRESH
      check of the write cannot fail. */
  lemma MergeKeeps(grand: Coins, us: Layer, child: Layer)
    requires LayerOk(grand, us) && LayerOk(Overlay(grand, us), child)
    ensures !Misapplied(us, child)
    ensures LayerOk(grand, Merged(us, child))
    ensures Overlay(grand, Merged(us, child)) == Overlay(Overlay(grand, us), child)
  {
    var view := Overlay(grand, us);
    var merged := Merged(us, child);
    forall o | o in merged ensures EntryOk(grand, o, merged[o]) {
      if o in child {
        assert EntryOk(view, o, child[o]);
      }
      if o in us {
        assert EntryOk(grand, o, us[o]);
      }
    }
    forall o
      ensures o in Overlay(grand, merged) <==> o in Overlay(view, child)
      ensures o in Overlay(grand, merged) ==> Overlay(grand, merged)[o] == Overlay(view, child)[o]
    {
      MergeAtPoint(grand, us, child, o);
    }
    forall o | o in child ensures child[o].isFresh ==> o !in us || IsSpent(us[o].coin) {
      assert EntryOk(view, o, child[o]);
    }
  }

  lemma MergeAtPoint(grand: Coins, us: Layer, child: Layer, o: OutPoint)
    requires LayerOk(grand, us) && LayerOk(Overlay(grand, us), child)
    ensures var merged := Merged(us, child);
            var view := Overlay(grand, us);
            && (o in Overlay(grand, merged) <==> o in Overlay(view, child))
            && (o in Overlay(grand, merged) ==> Overlay(grand, merged)[o] == Overlay(view, child)[o])
  {
    if o in child {
      assert EntryOk(Overlay(grand, us), o, child[o]);
    }
    if o in us {
      assert EntryOk(grand, o, us[o]);
    }
  }

  lemma WriteKeeps(coins: Coins, child: Layer)
    requires AllUnspent(coins) && LayerOk(coins, child)
    ensures Written(coins, child) == Overlay(coins, child)
  {
    forall o | o in child ensures EntryOk(coins, o, child[o]) {
    }
  }

  /** The part of a child's entries at these outpoints. */
  ghost function Only(layer: Layer, done: set<OutPoint>): Layer {
    map o | o in layer && o in done :: layer[o]
  }

  lemma WrittenIs(us: Coins, child: Layer, m: Coins)
    requires forall o :: CoinAt(m, o) == if o in child then WrittenAt(us, child, o) else CoinAt(us, o)
    ensures m == Written(us, child)
  {
    forall o ensures o in m <==> o in Written(us, child)
             ensures o in m ==> m[o] == Written(us, child)[o]
    {
      assert CoinAt(m, o) == if o in child then WrittenAt(us, child, o) else CoinAt(us, o);
    }
  }
}
