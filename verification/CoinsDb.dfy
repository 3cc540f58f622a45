/** The coin database: changes written in several batches, between markers that tell
    after a crash which transition was under way. */
module CoinsDb {
  import opened CoinLayers
  import opened Options

  /** What is on disk. A best block of zero means that none is recorded. */
  datatype Disk = Disk(coins: Coins, best: nat, heads: seq<nat>)

  datatype Change =
    | Put(o: OutPoint, coin: Coin)
    | Erase(o: OutPoint)
    | SetBest(best: nat)
    | EraseBest
    | SetHeads(heads: seq<nat>)
    | EraseHeads

  function Apply(d: Disk, c: Change): Disk {
    match c
    case Put(o, coin) => d.(coins := d.coins[o := coin])
    case Erase(o) => d.(coins := d.coins - {o})
    case SetBest(h) => d.(best := h)
    case EraseBest => d.(best := 0)
    case SetHeads(hs) => d.(heads := hs)
    case EraseHeads => d.(heads := [])
  }

  /** A batch is written whole or not at all. */
  function ApplyAll(d: Disk, batch: seq<Change>): Disk {
    if batch == [] then d else Apply(ApplyAll(d, batch[..|batch| - 1]), batch[|batch| - 1])
  }

  lemma ApplySnoc(d: Disk, batch: seq<Change>, c: Change)
    ensures ApplyAll(d, batch + [c]) == Apply(ApplyAll(d, batch), c)
  {
    assert (batch + [c])[..|batch|] == batch;
  }

  /** The block the coins belonged to before the transition under way, if any. */
  function OldTip(d: Disk): nat {
    if d.best != 0 then d.best else if |d.heads| == 2 then d.heads[1] else 0
  }

  /** Entries at these outpoints are written, and the transition is marked. */
  ghost function Marked(d: Disk, child: Layer, hashBlock: nat, done: set<OutPoint>): Disk {
    Disk(Written(d.coins, Only(child, done)), 0, [hashBlock, OldTip(d)])
  }

  /** Either nothing has been written or a marked part of the entries. */
  ghost predicate Midway(d0: Disk, child: Layer, hashBlock: nat, d: Disk) {
    d == d0 || exists done :: done <= child.Keys && d == Marked(d0, child, hashBlock, done)
  }

  /** A block may be written over a finished state, or to finish its own transition. */
  ghost predicate CanWrite(d: Disk, hashBlock: nat) {
    hashBlock != 0 && (d.best == 0 && |d.heads| == 2 ==> d.heads[0] == hashBlock)
  }

  lemma WrittenPoint(coins: Coins, child: Layer, o: OutPoint)
    ensures CoinAt(Written(coins, child), o) == WrittenAt(coins, child, o)
  {
  }

  /** Writing one part and then another writes both. */
  lemma WrittenTwice(coins: Coins, child: Layer, x: set<OutPoint>, y: set<OutPoint>)
    ensures Written(Written(coins, Only(child, x)), Only(child, y)) == Written(coins, Only(child, x + y))
  {
    hide Written;
    var once := Written(coins, Only(child, x));
    var twice := Written(once, Only(child, y));
    forall o
      ensures CoinAt(twice, o) == WrittenAt(coins, Only(child, x + y), o)
    {
      WrittenPoint(coins, Only(child, x), o);
      WrittenPoint(once, Only(child, y), o);
    }
    WrittenIs(coins, Only(child, x + y), twice);
  }

  lemma WrittenOne(coins: Coins, child: Layer, o: OutPoint)
    requires o in child
    ensures Written(coins, Only(child, {o})) ==
            if !child[o].dirty then coins
            else if IsSpent(child[o].coin) then coins - {o}
            else coins[o := child[o].coin]
  {
    var part := Only(child, {o});
    assert part == map[o := child[o]];
  }

  lemma WrittenNone(coins: Coins, child: Layer)
    ensures Written(coins, Only(child, {})) == coins
  {
    assert Only(child, {}) == map[];
  }

  lemma WrittenAll(coins: Coins, child: Layer)
    ensures Written(coins, Only(child, child.Keys)) == Written(coins, child)
  {
    assert Only(child, child.Keys) == child;
  }

  lemma MarkedOneMore(d0: Disk, child: Layer, hashBlock: nat, done: set<OutPoint>, o: OutPoint)
    requires o in child
    ensures var d := Marked(d0, child, hashBlock, done);
            Marked(d0, child, hashBlock, done + {o}) ==
            if !child[o].dirty then d
            else Apply(d, if IsSpent(child[o].coin) then Erase(o) else Put(o, child[o].coin))
  {
    hide Written, Only;
    WrittenTwice(d0.coins, child, done, {o});
    WrittenOne(Written(d0.coins, Only(child, done)), child, o);
  }

  lemma MarkedAll(d0: Disk, child: Layer, hashBlock: nat)
    ensures Marked(d0, child, hashBlock, child.Keys).coins == Written(d0.coins, child)
  {
    hide Written;
    WrittenAll(d0.coins, child);
  }

  lemma MarkedMidway(d0: Disk, child: Layer, hashBlock: nat, done: set<OutPoint>)
    requires done <= child.Keys
    ensures Midway(d0, child, hashBlock, Marked(d0, child, hashBlock, done))
  {
  }

  /** A write from midway gets no further than midway, and ends where one from the
      start does. */
  lemma MarkedAgain(d0: Disk, child: Layer, hashBlock: nat, x: set<OutPoint>, y: set<OutPoint>)
    ensures Marked(Marked(d0, child, hashBlock, x), child, hashBlock, y) == Marked(d0, child, hashBlock, x + y)
  {
    WrittenTwice(d0.coins, child, x, y);
  }

  class Database {
    var disk: Disk

    constructor (d: Disk)
      ensures disk == d
    {
      disk := d;
    }

    /** Write a child's changes as the state of a block, in as many batches as `full`
        asks for. The machine may stop before any of the writes. */
    method BatchWrite(mapCoins: Layer, hashBlock: nat, full: seq<Change> -> bool, stopAt: Option<nat>)
      returns (done: bool)
      requires CanWrite(disk, hashBlock)
      modifies this
      ensures done ==> disk == Disk(Written(old(disk).coins, mapCoins), hashBlock, [])
      ensures !done ==> stopAt.Some? && Midway(old(disk), mapCoins, hashBlock, disk)
    {
      hide Written, ApplyAll, Apply, Only, Marked, Midway;
      StartMidway(disk, mapCoins, hashBlock);
      ghost var d0, written := disk, {};
      var oldTip := OldTip(disk);
      var batch := [EraseBest, SetHeads([hashBlock, oldTip])];
      FirstBatch(disk, mapCoins, hashBlock);
      var todo, writes := mapCoins, 0;
      while todo != map[]
        invariant todo.Keys !! written && todo.Keys + written == mapCoins.Keys
        invariant forall o :: o in todo ==> todo[o] == mapCoins[o]
        invariant Midway(d0, mapCoins, hashBlock, disk)
        invariant ApplyAll(disk, batch) == Marked(d0, mapCoins, hashBlock, written)
        decreases |todo|
      {
        var o :| o in todo;
        MarkedOneMore(d0, mapCoins, hashBlock, written, o);
        if todo[o].dirty {
          var c := if IsSpent(todo[o].coin) then Erase(o) else Put(o, todo[o].coin);
          ApplySnoc(disk, batch, c);
          batch := batch + [c];
        }
        written := written + {o};
        todo := todo - {o};
        if full(batch) {
          if stopAt == Some(writes) { return false; }
          disk := ApplyAll(disk, batch);
          MarkedMidway(d0, mapCoins, hashBlock, written);
          batch, writes := [], writes + 1;
          NoBatch(disk);
        }
      }
      LastBatch(disk, batch, hashBlock);
      batch := batch + [EraseHeads, SetBest(hashBlock)];
      if stopAt == Some(writes) { return false; }
      assert written == mapCoins.Keys;
      MarkedAll(d0, mapCoins, hashBlock);
      disk := ApplyAll(disk, batch);
      done := true;
    }

    /** However often the write of a block is cut short and taken up again, finishing
        it leaves what an undisturbed write would; and until then the marker names
        the transition. */
    method WriteUntilDone(mapCoins: Layer, hashBlock: nat, full: seq<Change> -> bool, stops: seq<nat>)
      requires CanWrite(disk, hashBlock)
      modifies this
      ensures disk == Disk(Written(old(disk).coins, mapCoins), hashBlock, [])
    {
      hide Written, Midway, CanWrite;
      ghost var d0 := disk;
      StartMidway(d0, mapCoins, hashBlock);
      for i := 0 to |stops|
        invariant Midway(d0, mapCoins, hashBlock, disk) && CanWrite(disk, hashBlock)
      {
        ghost var before := disk;
        var done := BatchWrite(mapCoins, hashBlock, full, Some(stops[i]));
        if done {
          MidwayEnds(d0, mapCoins, hashBlock, before);
          return;
        }
        MidwayAgain(d0, mapCoins, hashBlock, before, disk);
      }
      MidwayEnds(d0, mapCoins, hashBlock, disk);
      var _ := BatchWrite(mapCoins, hashBlock, full, None);
    }
  }

  lemma FirstBatch(d: Disk, child: Layer, hashBlock: nat)
    ensures ApplyAll(d, [EraseBest, SetHeads([hashBlock, OldTip(d)])]) == Marked(d, child, hashBlock, {})
  {
    hide Written;
    WrittenNone(d.coins, child);
    ApplySnoc(d, [EraseBest], SetHeads([hashBlock, OldTip(d)]));
    ApplySnoc(d, [], EraseBest);
    assert [EraseBest] + [SetHeads([hashBlock, OldTip(d)])] == [EraseBest, SetHeads([hashBlock, OldTip(d)])];
    assert [] + [EraseBest] == [EraseBest];
  }

  lemma LastBatch(d: Disk, batch: seq<Change>, hashBlock: nat)
    ensures ApplyAll(d, batch + [EraseHeads, SetBest(hashBlock)]) == Disk(ApplyAll(d, batch).coins, hashBlock, [])
  {
    ApplySnoc(d, batch, EraseHeads);
    ApplySnoc(d, batch + [EraseHeads], SetBest(hashBlock));
    assert batch + [EraseHeads] + [SetBest(hashBlock)] == batch + [EraseHeads, SetBest(hashBlock)];
  }

  lemma NoBatch(d: Disk)
    ensures ApplyAll(d, []) == d
  {
  }

  lemma StartMidway(d0: Disk, child: Layer, hashBlock: nat)
    ensures Midway(d0, child, hashBlock, d0)
  {
  }

  lemma MidwayAgain(d0: Disk, child: Layer, hashBlock: nat, d1: Disk, d2: Disk)
    requires CanWrite(d0, hashBlock) && Midway(d0, child, hashBlock, d1) && Midway(d1, child, hashBlock, d2)
    ensures Midway(d0, child, hashBlock, d2) && CanWrite(d2, hashBlock)
  {
    hide Marked;
    if d1 != d0 && d2 != d1 {
      var x :| x <= child.Keys && d1 == Marked(d0, child, hashBlock, x);
      var y :| y <= child.Keys && d2 == Marked(d1, child, hashBlock, y);
      MarkedAgain(d0, child, hashBlock, x, y);
      assert x + y <= child.Keys;
    }
    MidwayMarked(d0, child, hashBlock, d2);
  }

  /** Until a write is finished, the disk names the block it goes to and the one it
      comes from. */
  lemma MidwayMarked(d0: Disk, child: Layer, hashBlock: nat, d: Disk)
    requires CanWrite(d0, hashBlock) && Midway(d0, child, hashBlock, d)
    ensures d == d0 || (d.best == 0 && d.heads == [hashBlock, OldTip(d0)])
    ensures CanWrite(d, hashBlock) && OldTip(d) == OldTip(d0)
  {
    hide Written;
  }

  lemma MidwayEnds(d0: Disk, child: Layer, hashBlock: nat, d: Disk)
    requires Midway(d0, child, hashBlock, d)
    ensures Written(d.coins, child) == Written(d0.coins, child)
  {
    hide Written;
    if d != d0 {
      var x :| x <= child.Keys && d == Marked(d0, child, hashBlock, x);
      WrittenTwice(d0.coins, child, x, child.Keys);
      assert x + child.Keys == child.Keys;
      WrittenAll(d0.coins, child);
      WrittenAll(d.coins, child);
    }
  }
}
