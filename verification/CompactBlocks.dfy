/** Compact block relay (BIP 152): a block rebuilt from short transaction ids,
    prefilled transactions and what the node already has. */
module CompactBlocks {
  import opened Options
  import opened Serialize

  datatype Tx = Tx(hash: nat, isNull: bool)

  /** A transaction to include, at an offset since the last one. */
  datatype Prefilled = Prefilled(index: nat, tx: Tx)

  datatype Message = Message(headerIsNull: bool, shortIds: seq<nat>, prefilled: seq<Prefilled>)
  {
    function BlockTxCount(): nat { |shortIds| + |prefilled| }
  }

  /** A transaction the node has, listed under its hash. */
  datatype Offer = Offer(hash: nat, tx: Tx)

  datatype Status = Ok | Invalid | Failed | CheckBlockFailed

  type ShortId = nat -> nat

  // ---------- counting slots ----------

  ghost function CountNone(a: seq<Option<Tx>>): (n: nat)
    ensures n <= |a|
  {
    if a == [] then 0 else CountNone(a[..|a| - 1]) + if a[|a| - 1] == None then 1 else 0
  }

  lemma {:induction false} CountNoneAppend(a: seq<Option<Tx>>, b: seq<Option<Tx>>)
    ensures CountNone(a + b) == CountNone(a) + CountNone(b)
  {
    if b == [] {
      assert a + b == a;
    } else {
      CountNoneAppend(a, b[..|b| - 1]);
      assert (a + b)[..|a + b| - 1] == a + b[..|b| - 1];
    }
  }

  lemma CountNoneUpdate(a: seq<Option<Tx>>, i: nat, v: Option<Tx>)
    requires i < |a|
    ensures CountNone(a[i := v]) == CountNone(a) + (if v == None then 1 else 0) - (if a[i] == None then 1 else 0)
  {
    assert a == a[..i] + [a[i]] + a[i + 1..];
    assert a[i := v] == a[..i] + [v] + a[i + 1..];
    CountNoneAppend(a[..i] + [a[i]], a[i + 1..]);
    CountNoneAppend(a[..i], [a[i]]);
    CountNoneAppend(a[..i] + [v], a[i + 1..]);
    CountNoneAppend(a[..i], [v]);
    assert [v][..0] == [] && [a[i]][..0] == [];
  }

  lemma {:induction false} AllNone(a: seq<Option<Tx>>)
    requires forall i :: 0 <= i < |a| ==> a[i] == None
    ensures CountNone(a) == |a|
  {
    if a != [] { AllNone(a[..|a| - 1]); }
  }

  lemma {:induction false} NoneLeft(a: seq<Option<Tx>>)
    ensures CountNone(a) == 0 <==> forall i :: 0 <= i < |a| ==> a[i] != None
  {
    if a != [] {
      NoneLeft(a[..|a| - 1]);
      assert forall i :: 0 <= i < |a| - 1 ==> a[..|a| - 1][i] == a[i];
    }
  }

  lemma CountStep(a: seq<Option<Tx>>, i: nat)
    requires i < |a|
    ensures CountNone(a[..i + 1]) == CountNone(a[..i]) + if a[i] == None then 1 else 0
  {
    assert a[..i + 1][..i] == a[..i];
  }

  lemma {:induction false} CountPrefix(a: seq<Option<Tx>>, i: nat, j: nat)
    requires i <= j <= |a|
    ensures CountNone(a[..i]) <= CountNone(a[..j])
    decreases j
  {
    if i < j {
      CountPrefix(a, i, j - 1);
      CountStep(a, j - 1);
    }
  }

  // ---------- where prefilled transactions go ----------

  /** The block position of prefilled transaction k. */
  ghost function Position(p: seq<Prefilled>, k: int): int
    requires -1 <= k < |p|
    decreases k + 1
  {
    if k < 0 then -1 else Position(p, k - 1) + p[k].index + 1
  }

  lemma {:induction false} PositionsGrow(p: seq<Prefilled>, j: int, k: int)
    requires -1 <= j < k < |p|
    ensures Position(p, j) < Position(p, k)
    decreases k
  {
    if j < k - 1 { PositionsGrow(p, j, k - 1); }
  }

  /** Not null, its position within 16 bits and not beyond what can precede it. */
  ghost predicate EntryOk(p: seq<Prefilled>, ids: nat, k: nat)
    requires k < |p|
  {
    !p[k].tx.isNull && Position(p, k) <= 0xffff && Position(p, k) <= ids + k
  }

  ghost predicate PrefilledOk(p: seq<Prefilled>, ids: nat) {
    forall k :: 0 <= k < |p| ==> EntryOk(p, ids, k)
  }

  /** The prefilled transactions, and nothing else, are in place. */
  ghost predicate Placed(a: seq<Option<Tx>>, p: seq<Prefilled>, n: nat)
    requires n <= |p|
  {
    && (forall k :: 0 <= k < n ==> 0 <= Position(p, k) < |a| && a[Position(p, k)] == Some(p[k].tx))
    && (forall i :: 0 <= i < |a| && a[i] != None ==> IsPlace(p, n, i))
  }

  ghost predicate IsPlace(p: seq<Prefilled>, n: nat, i: int)
    requires n <= |p|
  {
    exists k :: 0 <= k < n && Position(p, k) == i
  }

  lemma PlaceGrows(p: seq<Prefilled>, n: nat, i: int)
    requires n < |p|
    ensures IsPlace(p, n + 1, i) <==> IsPlace(p, n, i) || Position(p, n) == i
  {
    hide Position;
    assert Position(p, n) == i ==> IsPlace(p, n + 1, i);
  }

  lemma PlaceNext(a: seq<Option<Tx>>, p: seq<Prefilled>, i: nat)
    requires i < |p| && Placed(a, p, i) && 0 <= Position(p, i) < |a|
    ensures a[Position(p, i)] == None && Placed(a[Position(p, i) := Some(p[i].tx)], p, i + 1)
  {
    hide Position, IsPlace;
    var q := Position(p, i);
    forall k | 0 <= k < i
      ensures Position(p, k) < q
    {
      PositionsGrow(p, k, i);
    }
    NotYet(p, i);
    var b := a[q := Some(p[i].tx)];
    forall j | 0 <= j < |b| && b[j] != None
      ensures IsPlace(p, i + 1, j)
    {
      PlaceGrows(p, i, j);
    }
  }

  lemma NotYet(p: seq<Prefilled>, i: nat)
    requires i < |p| && forall k :: 0 <= k < i ==> Position(p, k) < Position(p, i)
    ensures !IsPlace(p, i, Position(p, i))
  {
    hide Position;
  }

  // ---------- slots of short ids ----------

  /** s is the i-th position left over by the prefilled transactions. */
  ghost predicate IsSlot(a: seq<Option<Tx>>, i: nat, s: nat) {
    s < |a| && a[s] == None && CountNone(a[..s]) == i
  }

  lemma SlotUnique(a: seq<Option<Tx>>, i: nat, s: nat, j: nat, t: nat)
    requires IsSlot(a, i, s) && IsSlot(a, j, t)
    ensures i < j <==> s < t
  {
    if s < t {
      CountStep(a, s);
      CountPrefix(a, s + 1, t);
    } else {
      CountPrefix(a, t, s);
    }
  }

  ghost predicate Distinct(ids: seq<nat>) {
    forall i, j :: 0 <= i < j < |ids| ==> ids[i] != ids[j]
  }

  /** Each short id is mapped to its slot: the i-th id to the i-th position left over. */
  ghost predicate Slotted(a: seq<Option<Tx>>, ids: seq<nat>, slots: seq<nat>) {
    |slots| == |ids| && forall i :: 0 <= i < |ids| ==> IsSlot(a, i, slots[i])
  }

  ghost predicate Mapped(ids: seq<nat>, slots: seq<nat>, m: map<nat, nat>) {
    && |slots| == |ids| && (forall k :: k in m <==> k in ids)
    && forall i :: 0 <= i < |ids| ==> m[ids[i]] == slots[i]
  }

  /** The next empty position; one exists because not all have been passed. */
  method FindSlot(a: seq<Option<Tx>>, i: nat, start: nat) returns (s: nat)
    requires start <= |a| && CountNone(a[..start]) == i < CountNone(a)
    ensures start <= s && IsSlot(a, i, s) && CountNone(a[..s + 1]) == i + 1
  {
    hide CountNone;
    s := start;
    assert a[..|a|] == a;
    while a[s] != None
      invariant start <= s < |a| && CountNone(a[..s]) == i
      decreases |a| - s
    {
      CountStep(a, s);
      s := s + 1;
    }
    CountStep(a, s);
  }

  /** Map short ids to slots. An overfull hash bucket or a repeated id is a failure. */
  method MapSlots(a: seq<Option<Tx>>, ids: seq<nat>, crowded: seq<nat> -> bool)
    returns (ok: bool, m: map<nat, nat>, ghost slots: seq<nat>)
    requires CountNone(a) == |ids|
    ensures ok <==> Distinct(ids) && forall i :: 0 < i <= |ids| ==> !crowded(ids[..i])
    ensures ok ==> Slotted(a, ids, slots) && Mapped(ids, slots, m) && |m| == |ids|
  {
    hide CountNone, IsSlot, MapSoFar, Mapped, Distinct;
    m, slots := map[], [];
    var next: nat := 0;
    EmptyCount(a);
    MapNone(ids);
    for i := 0 to |ids|
      invariant next <= |a| && CountNone(a[..next]) == i == |slots|
      invariant forall j :: 0 <= j < i ==> IsSlot(a, j, slots[j])
      invariant forall j :: 0 < j <= i ==> !crowded(ids[..j])
      invariant MapSoFar(ids[..i], slots, m)
    {
      var s := FindSlot(a, i, next);
      MapMore(ids, i, slots, m, s);
      SlotInside(a, i, s);
      slots := slots + [s];
      m := m[ids[i] := s];
      next := s + 1;
      if crowded(ids[..i + 1]) { return false, m, slots; }
    }
    assert ids[..|ids|] == ids;
    MapDone(ids, slots, m);
    ok := |m| == |ids|;
  }

  lemma MapNone(ids: seq<nat>)
    ensures MapSoFar(ids[..0], [], map[])
  {
  }

  lemma MapDone(ids: seq<nat>, slots: seq<nat>, m: map<nat, nat>)
    requires MapSoFar(ids, slots, m)
    ensures |m| == |ids| <==> Distinct(ids)
    ensures Distinct(ids) ==> Mapped(ids, slots, m)
  {
  }

  lemma EmptyCount(a: seq<Option<Tx>>)
    ensures CountNone(a[..0]) == 0
  {
  }

  lemma SlotInside(a: seq<Option<Tx>>, i: nat, s: nat)
    requires IsSlot(a, i, s)
    ensures s < |a|
  {
  }

  /** The map has one entry for each id exactly while no id has repeated. */
  ghost predicate MapSoFar(ids: seq<nat>, slots: seq<nat>, m: map<nat, nat>) {
    && |m| <= |ids| && (|m| == |ids| <==> Distinct(ids)) && |slots| == |ids|
    && (forall k :: k in m <==> k in ids)
    && (Distinct(ids) ==> forall i :: 0 <= i < |ids| ==> m[ids[i]] == slots[i])
  }

  lemma MapMore(ids: seq<nat>, i: nat, slots: seq<nat>, m: map<nat, nat>, s: nat)
    requires i < |ids| && MapSoFar(ids[..i], slots, m)
    ensures MapSoFar(ids[..i + 1], slots + [s], m[ids[i] := s])
  {
    hide Distinct;
    var before, after := ids[..i], ids[..i + 1];
    assert after == before + [ids[i]];
    DistinctMore(before, ids[i]);
    var n := m[ids[i] := s];
    if Distinct(after) {
      forall j | 0 <= j < |after|
        ensures n[after[j]] == (slots + [s])[j]
      {
        if j < i { assert before[j] == after[j]; }
      }
    }
  }

  lemma DistinctMore(ids: seq<nat>, x: nat)
    ensures Distinct(ids + [x]) <==> Distinct(ids) && x !in ids
  {
    var more := ids + [x];
    if Distinct(more) {
      assert forall j :: 0 <= j < |ids| ==> ids[j] == more[j];
      assert forall j :: 0 <= j < |ids| ==> more[j] != more[|ids|];
    }
  }

  class PartiallyDownloadedBlock {
    var hasHeader: bool
    var txnAvailable: seq<Option<Tx>>
    var prefilledCount: nat
    var mempoolCount: int

    constructor ()
      ensures !hasHeader && txnAvailable == [] && mempoolCount == 0
    {
      hasHeader, txnAvailable, prefilledCount, mempoolCount := false, [], 0, 0;
    }

    /** Put prefilled transactions at their decoded positions. */
    method Prefill(msg: Message) returns (ok: bool)
      modifies this
      ensures hasHeader == old(hasHeader) && mempoolCount == old(mempoolCount)
      ensures ok <==> PrefilledOk(msg.prefilled, |msg.shortIds|)
      ensures |txnAvailable| == msg.BlockTxCount()
      ensures ok ==> Placed(txnAvailable, msg.prefilled, |msg.prefilled|) && CountNone(txnAvailable) == |msg.shortIds|
    {
      hide CountNone, Placed, EntryOk;
      var p, n := msg.prefilled, msg.BlockTxCount();
      txnAvailable := seq(n, _ => None);
      AllNone(txnAvailable);
      NothingPlaced(txnAvailable, p);
      var last := -1;
      for i := 0 to |p|
        invariant unchanged(`hasHeader) && unchanged(`mempoolCount) && |txnAvailable| == n
        invariant last == Position(p, i - 1) && -1 <= last
        invariant forall k :: 0 <= k < i ==> EntryOk(p, |msg.shortIds|, k)
        invariant Placed(txnAvailable, p, i) && CountNone(txnAvailable) == n - i
      {
        last := last + p[i].index + 1;
        var fits := !p[i].tx.isNull && last <= 0xffff && last <= |msg.shortIds| + i;
        EntryFits(p, |msg.shortIds|, i);
        if !fits { return false; }
        PlaceNext(txnAvailable, p, i);
        CountNoneUpdate(txnAvailable, last, Some(p[i].tx));
        txnAvailable := txnAvailable[last := Some(p[i].tx)];
      }
      prefilledCount := |p|;
      return true;
    }

    ghost predicate Counted(ids: nat)
      reads this
    {
      mempoolCount + CountNone(txnAvailable) == ids
    }

    /** Look at one transaction the node has. */
    method Consider(o: Offer, isExtra: bool, m: map<nat, nat>, have: seq<bool>, sid: ShortId,
                    ghost ids: seq<nat>, ghost slots: seq<nat>, ghost offers: seq<Offer>) returns (now: seq<bool>)
      requires Mapped(ids, slots, m) && Distinct(ids) && Increasing(slots)
      requires SlotsOk(txnAvailable, have, ids, slots, offers, sid) && Counted(|ids|)
      modifies this`txnAvailable, this`mempoolCount
      ensures SlotsOk(txnAvailable, now, ids, slots, offers + [o], sid) && Counted(|ids|)
      ensures |txnAvailable| == |old(txnAvailable)|
      ensures forall i :: 0 <= i < |txnAvailable| && i !in slots ==> txnAvailable[i] == old(txnAvailable)[i]
    {
      hide CountNone, SlotOk, Distinct, Increasing;
      var id := sid(o.hash);
      now := have;
      if id in m {
        ghost var j := FindId(ids, id);
        var s := m[id];
        SlotsStep(txnAvailable, have, ids, slots, offers, sid, o, isExtra, j);
        CountNoneUpdate(txnAvailable, s, Considered(txnAvailable[s], have[s], o, isExtra));
        if !have[s] {
          EmptyUntilHad(txnAvailable, have, ids, slots, offers, sid, j);
          txnAvailable := txnAvailable[s := Some(o.tx)];
          now := have[s := true];
          mempoolCount := mempoolCount + 1;
        } else {
          assert have[s := true] == have;
          if txnAvailable[s].Some? && (!isExtra || txnAvailable[s].value.hash != o.tx.hash) {
            txnAvailable := txnAvailable[s := None];
            mempoolCount := mempoolCount - 1;
          } else {
            assert txnAvailable[s := txnAvailable[s]] == txnAvailable;
          }
        }
      } else {
        SlotsMiss(txnAvailable, have, ids, slots, offers, sid, o);
      }
    }

    /** Go through a list of transactions, stopping early once every slot is filled. */
    method Scan(list: seq<Offer>, isExtra: bool, m: map<nat, nat>, have: seq<bool>, sid: ShortId,
                ghost ids: seq<nat>, ghost slots: seq<nat>, ghost offers: seq<Offer>)
      returns (now: seq<bool>, ghost n: nat)
      requires Mapped(ids, slots, m) && |m| == |ids| && Distinct(ids) && Increasing(slots)
      requires SlotsOk(txnAvailable, have, ids, slots, offers, sid) && Counted(|ids|)
      modifies this`txnAvailable, this`mempoolCount
      ensures n <= |list| && (n == |list| || CountNone(txnAvailable) == 0)
      ensures SlotsOk(txnAvailable, now, ids, slots, offers + list[..n], sid) && Counted(|ids|)
      ensures |txnAvailable| == |old(txnAvailable)|
      ensures forall i :: 0 <= i < |txnAvailable| && i !in slots ==> txnAvailable[i] == old(txnAvailable)[i]
    {
      hide CountNone, SlotOk, Distinct, Increasing, Mapped;
      now := have;
      n := 0;
      assert offers + list[..0] == offers;
      for i := 0 to |list|
        invariant SlotsOk(txnAvailable, now, ids, slots, offers + list[..i], sid) && Counted(|ids|)
        invariant |txnAvailable| == |old(txnAvailable)|
        invariant forall i :: 0 <= i < |txnAvailable| && i !in slots ==> txnAvailable[i] == old(txnAvailable)[i]
      {
        assert offers + list[..i + 1] == (offers + list[..i]) + [list[i]];
        now := Consider(list[i], isExtra, m, now, sid, ids, slots, offers + list[..i]);
        if mempoolCount == |m| { return now, i + 1; }
      }
      n := |list|;
    }

    /** Start a block from its message, the memory pool and some extra transactions. */
    method InitData(msg: Message, maxTxs: nat, pool: seq<Offer>, extra: seq<Offer>,
                    sid: ShortId, crowded: seq<nat> -> bool)
      returns (status: Status, ghost slots: seq<nat>)
      requires !hasHeader && txnAvailable == [] && mempoolCount == 0 && msg.BlockTxCount() <= 0xffff
      modifies this
      ensures status in {Ok, Invalid, Failed}
      ensures status == Invalid <==>
                || msg.headerIsNull || msg.BlockTxCount() == 0 || msg.BlockTxCount() > maxTxs
                || !PrefilledOk(msg.prefilled, |msg.shortIds|)
      ensures status == Failed ==>
                !Distinct(msg.shortIds) || exists i :: 0 < i <= |msg.shortIds| && crowded(msg.shortIds[..i])
      ensures status == Ok ==>
                && Distinct(msg.shortIds) && (forall i :: 0 < i <= |msg.shortIds| ==> !crowded(msg.shortIds[..i]))
                && hasHeader
                && Initialised(msg, txnAvailable, slots, pool + extra, sid)
                && mempoolCount == |msg.shortIds| - CountNone(txnAvailable)
    {
      hide CountNone, Placed, PrefilledOk, Slotted, Mapped, Distinct, SlotsOk, Position, SlotDone, Shared, IsSlot;
      slots := [];
      if msg.headerIsNull || (msg.shortIds == [] && msg.prefilled == []) { return Invalid, []; }
      if |msg.shortIds| + |msg.prefilled| > maxTxs { return Invalid, []; }
      hasHeader := true;
      var placed := Prefill(msg);
      if !placed { return Invalid, []; }
      var ids := msg.shortIds;
      ghost var a0 := txnAvailable;
      var ok, m, s := MapSlots(txnAvailable, ids, crowded);
      if !ok { return Failed, []; }
      slots := s;
      SlotsIncrease(a0, ids, slots);
      SlotsShare(a0, msg.prefilled, ids, slots);
      var have := seq(|txnAvailable|, _ => false);
      SlotsStart(a0, have, ids, slots, sid);
      ghost var x, y;
      have, x := Scan(pool, false, m, have, sid, ids, slots, []);
      assert [] + pool[..x] == pool[..x];
      ghost var a1, have1 := txnAvailable, have;
      have, y := Scan(extra, true, m, have, sid, ids, slots, pool[..x]);
      forall j | 0 <= j < |ids|
        ensures SlotDone(txnAvailable[slots[j]], pool + extra, sid, ids[j])
      {
        ScanComplete(a1, have1, txnAvailable, have, ids, slots, pool, x, extra, y, sid, j);
      }
      PrefilledStay(a0, txnAvailable, msg.prefilled, slots);
      status := Ok;
    }

    /** The positions to ask the peer for. */
    method RequestMissing() returns (indexes: seq<nat>)
      requires hasHeader
      ensures indexes == MissingAt(txnAvailable)
    {
      hide MissingAt;
      indexes := [];
      NoneMissing(txnAvailable);
      for i := 0 to |txnAvailable|
        invariant indexes == MissingAt(txnAvailable[..i])
      {
        MissingAtStep(txnAvailable, i);
        if txnAvailable[i] == None { indexes := indexes + [i]; }
      }
      assert txnAvailable[..|txnAvailable|] == txnAvailable;
    }

    /** Complete the block with the transactions that were missing, in order. Too few
        leave the object started but with what it has passed moved out; any other
        call ends it. */
    method FillBlock(missing: seq<Tx>, check: seq<Tx> -> Status) returns (status: Status, vtx: seq<Tx>)
      requires hasHeader
      modifies this
      ensures |missing| < CountNone(old(txnAvailable)) ==>
                && status == Invalid && hasHeader
                && exists n: nat :: IsSlot(old(txnAvailable), |missing|, n)
                    && txnAvailable == MovedOut(old(txnAvailable), n)
      ensures |missing| >= CountNone(old(txnAvailable)) ==> !hasHeader && txnAvailable == []
      ensures |missing| > CountNone(old(txnAvailable)) ==> status == Invalid
      ensures |missing| == CountNone(old(txnAvailable)) ==>
                vtx == Filled(old(txnAvailable), missing) && status == check(vtx)
    {
      hide CountNone, Filled, MovedOut;
      ghost var a := txnAvailable;
      NoneMoved(a);
      vtx := [];
      var offset: nat := 0;
      EmptyCount(a);
      FilledNone(a, missing);
      for i := 0 to |txnAvailable|
        invariant hasHeader && txnAvailable == MovedOut(a, i)
        invariant offset == CountNone(a[..i]) <= |missing| && vtx == Filled(a[..i], missing)
      {
        FilledStep(a, i, missing);
        MovedNext(a, i);
        if txnAvailable[i] == None {
          if |missing| <= offset {
            CountPrefix(a, i + 1, |a|);
            assert a[..|a|] == a;
            return Invalid, vtx;
          }
          vtx := vtx + [missing[offset]];
          offset := offset + 1;
        } else {
          vtx := vtx + [txnAvailable[i].value];
          txnAvailable := txnAvailable[i := None];
        }
      }
      assert a[..|a|] == a;
      hasHeader := false;
      txnAvailable := [];
      if |missing| != offset { return Invalid, vtx; }
      status := check(vtx);
    }
  }

  /** The first n entries moved out. */
  ghost function MovedOut(a: seq<Option<Tx>>, n: nat): (r: seq<Option<Tx>>)
    requires n <= |a|
    ensures |r| == |a|
  {
    seq(n, _ => None) + a[n..]
  }

  lemma NoneMoved(a: seq<Option<Tx>>)
    ensures MovedOut(a, 0) == a
  {
  }

  lemma MovedNext(a: seq<Option<Tx>>, i: nat)
    requires i < |a|
    ensures MovedOut(a, i)[i] == a[i] && MovedOut(a, i)[i := None] == MovedOut(a, i + 1)
    ensures a[i] == None ==> MovedOut(a, i) == MovedOut(a, i + 1)
  {
  }

  // ---------- filling in what is missing ----------

  ghost function Filled(a: seq<Option<Tx>>, missing: seq<Tx>): (r: seq<Tx>)
    requires CountNone(a) <= |missing|
    ensures |r| == |a|
  {
    if a == [] then []
    else
      var n := |a| - 1;
      Filled(a[..n], missing) + [if a[n] == None then missing[CountNone(a[..n])] else a[n].value]
  }

  lemma FilledNone(a: seq<Option<Tx>>, missing: seq<Tx>)
    ensures CountNone(a[..0]) == 0 && Filled(a[..0], missing) == []
  {
  }

  lemma FilledStep(a: seq<Option<Tx>>, i: nat, missing: seq<Tx>)
    requires i < |a| && CountNone(a[..i]) <= |missing|
    ensures CountNone(a[..i + 1]) == CountNone(a[..i]) + if a[i] == None then 1 else 0
    ensures CountNone(a[..i + 1]) <= |missing| ==>
              Filled(a[..i + 1], missing)
              == Filled(a[..i], missing) + [if a[i] == None then missing[CountNone(a[..i])] else a[i].value]
  {
    hide CountNone;
    var b := a[..i + 1];
    assert b[..|b| - 1] == a[..i] && b[|b| - 1] == a[i];
    CountStep(a, i);
  }

  /** The transactions of vtx for the empty positions, in order. */
  ghost function Missing(a: seq<Option<Tx>>, vtx: seq<Tx>): (r: seq<Tx>)
    requires |a| == |vtx|
    ensures |r| == CountNone(a)
  {
    if a == [] then []
    else
      var n := |a| - 1;
      Missing(a[..n], vtx[..n]) + if a[n] == None then [vtx[n]] else []
  }

  lemma {:induction false} FilledMore(a: seq<Option<Tx>>, missing: seq<Tx>, more: seq<Tx>)
    requires CountNone(a) <= |missing|
    ensures Filled(a, missing + more) == Filled(a, missing)
  {
    if a != [] { FilledMore(a[..|a| - 1], missing, more); }
  }

  /** Everything on hand is the block's own transaction at that position. */
  ghost predicate Genuine(a: seq<Option<Tx>>, vtx: seq<Tx>)
    requires |a| == |vtx|
  {
    forall i :: 0 <= i < |a| ==> a[i] == None || a[i] == Some(vtx[i])
  }

  /** The missing transactions complete the block exactly when everything on hand is
      genuine. */
  lemma {:induction false} Rebuilds(a: seq<Option<Tx>>, vtx: seq<Tx>)
    requires |a| == |vtx|
    ensures Filled(a, Missing(a, vtx)) == vtx <==> Genuine(a, vtx)
  {
    if a != [] {
      var n := |a| - 1;
      Rebuilds(a[..n], vtx[..n]);
      FilledMore(a[..n], Missing(a[..n], vtx[..n]), if a[n] == None then [vtx[n]] else []);
      assert vtx == vtx[..n] + [vtx[n]];
      GenuineSnoc(a, vtx);
      var r := Filled(a, Missing(a, vtx));
      assert r == r[..n] + [r[n]];
    }
  }

  lemma GenuineSnoc(a: seq<Option<Tx>>, vtx: seq<Tx>)
    requires |a| == |vtx| > 0
    ensures var n := |a| - 1;
            Genuine(a, vtx) <==> Genuine(a[..n], vtx[..n]) && (a[n] == None || a[n] == Some(vtx[n]))
  {
    var n := |a| - 1;
    assert forall i :: 0 <= i < n ==> a[..n][i] == a[i] && vtx[..n][i] == vtx[i];
  }

  /** Rebuilding succeeds whenever no offer has the short id of another transaction. */
  lemma InitialisedRebuilds(msg: Message, a: seq<Option<Tx>>, slots: seq<nat>, offers: seq<Offer>,
                            sid: ShortId, vtx: seq<Tx>)
    requires Initialised(msg, a, slots, offers, sid) && |vtx| == |a|
    requires forall k :: 0 <= k < |msg.prefilled| ==> vtx[Position(msg.prefilled, k)] == msg.prefilled[k].tx
    requires forall j, k :: 0 <= j < |slots| && 0 <= k < |offers| && sid(offers[k].hash) == msg.shortIds[j]
               ==> offers[k].tx == vtx[slots[j]]
    ensures Filled(a, Missing(a, vtx)) == vtx
  {
    hide Position, Increasing, Matches, Filled, Missing;
    forall i | 0 <= i < |a|
      ensures a[i] == None || a[i] == Some(vtx[i])
    {
      if i in slots {
        var j :| 0 <= j < |slots| && slots[j] == i;
        assert SlotDone(a[slots[j]], offers, sid, msg.shortIds[j]);
      } else {
        var k :| 0 <= k < |msg.prefilled| && Position(msg.prefilled, k) == i;
      }
    }
    Rebuilds(a, vtx);
  }

  // ---------- the message a peer makes from a block ----------

  function ShortIds(vtx: seq<Tx>, sid: ShortId): (r: seq<nat>)
    ensures |r| == |vtx| && forall i :: 0 <= i < |vtx| ==> r[i] == sid(vtx[i].hash)
  {
    if vtx == [] then [] else [sid(vtx[0].hash)] + ShortIds(vtx[1..], sid)
  }

  /** The coinbase prefilled, everything else by short id. */
  ghost function MessageOf(vtx: seq<Tx>, sid: ShortId): Message
    requires vtx != []
  {
    Message(false, ShortIds(vtx[1..], sid), [Prefilled(0, vtx[0])])
  }

  lemma {:induction false} IncreasingGap(s: seq<nat>, i: nat, j: nat)
    requires Increasing(s) && i <= j < |s|
    ensures s[i] + (j - i) <= s[j]
    decreases j
  {
    if i < j { IncreasingGap(s, i, j - 1); }
  }

  /** In such a message short id j stands for transaction j + 1. */
  lemma SlotsOfMessage(vtx: seq<Tx>, sid: ShortId, slots: seq<nat>, j: nat)
    requires vtx != [] && |slots| == |vtx| - 1 && Shared(|vtx|, MessageOf(vtx, sid).prefilled, slots)
    requires forall i :: 0 <= i < |slots| ==> slots[i] < |vtx|
    requires j < |slots|
    ensures slots[j] == j + 1
  {
    var p := MessageOf(vtx, sid).prefilled;
    assert Position(p, 0) == 0;
    assert IsPlace(p, |p|, 0);
    assert 0 !in slots;
    IncreasingGap(slots, 0, j);
    IncreasingGap(slots, j, |slots| - 1);
  }

  /** An honest message rebuilds its block, unless a short id of the block is also
      that of a different transaction on hand. */
  lemma HonestRebuild(vtx: seq<Tx>, a: seq<Option<Tx>>, slots: seq<nat>, offers: seq<Offer>, sid: ShortId)
    requires vtx != [] && Initialised(MessageOf(vtx, sid), a, slots, offers, sid)
    requires NoCollision(vtx, offers, sid)
    ensures Filled(a, Missing(a, vtx)) == vtx
  {
    hide Filled, Missing, SlotDone, Increasing;
    var msg := MessageOf(vtx, sid);
    forall j | 0 <= j < |slots|
      ensures slots[j] == j + 1
    {
      SlotsOfMessage(vtx, sid, slots, j);
    }
    assert Position(msg.prefilled, 0) == 0;
    InitialisedRebuilds(msg, a, slots, offers, sid, vtx);
  }

  /** Short ids for all but the coinbase, which is sent whole. */
  method MakeMessage(vtx: seq<Tx>, sid: ShortId) returns (msg: Message)
    requires vtx != []
    ensures msg == MessageOf(vtx, sid)
  {
    var ids := [];
    for i := 1 to |vtx|
      invariant |ids| == i - 1 && forall j :: 0 <= j < i - 1 ==> ids[j] == sid(vtx[j + 1].hash)
    {
      ids := ids + [sid(vtx[i].hash)];
    }
    msg := Message(false, ids, [Prefilled(0, vtx[0])]);
    assert ids == ShortIds(vtx[1..], sid);
  }

  /** The empty positions, in order. */
  ghost function MissingAt(a: seq<Option<Tx>>): (r: seq<nat>)
    ensures |r| == CountNone(a) && forall i :: 0 <= i < |r| ==> r[i] < |a|
  {
    if a == [] then []
    else
      var n := |a| - 1;
      MissingAt(a[..n]) + if a[n] == None then [n] else []
  }

  lemma NoneMissing(a: seq<Option<Tx>>)
    ensures MissingAt(a[..0]) == []
  {
  }

  lemma MissingAtStep(a: seq<Option<Tx>>, i: nat)
    requires i < |a|
    ensures MissingAt(a[..i + 1]) == MissingAt(a[..i]) + if a[i] == None then [i] else []
  {
    assert a[..i + 1][..i] == a[..i];
  }

  lemma {:induction false} MissingAtIncreases(a: seq<Option<Tx>>)
    ensures Increasing(MissingAt(a))
  {
    if a != [] {
      MissingAtIncreases(a[..|a| - 1]);
    }
  }

  lemma {:induction false} MissingThere(a: seq<Option<Tx>>, vtx: seq<Tx>)
    requires |a| == |vtx|
    ensures forall i :: 0 <= i < |MissingAt(a)| ==> Missing(a, vtx)[i] == vtx[MissingAt(a)[i]]
  {
    if a != [] {
      MissingThere(a[..|a| - 1], vtx[..|a| - 1]);
    }
  }

  /** The transactions asked for, unless an index is beyond the block. */
  method SendBlockTransactions(vtx: seq<Tx>, indexes: seq<nat>) returns (r: Option<seq<Tx>>)
    ensures r.Some? <==> forall i :: 0 <= i < |indexes| ==> indexes[i] < |vtx|
    ensures r.Some? ==> |r.value| == |indexes| && forall i :: 0 <= i < |indexes| ==> r.value[i] == vtx[indexes[i]]
  {
    var txn := [];
    for i := 0 to |indexes|
      invariant |txn| == i && forall j :: 0 <= j < i ==> indexes[j] < |vtx| && txn[j] == vtx[indexes[j]]
    {
      if indexes[i] >= |vtx| { return None; }
      txn := txn + [vtx[indexes[i]]];
    }
    r := Some(txn);
  }

  /** Indexes of a block written as differences and read back. */
  method SendIndexes(v: seq<nat>) returns (w: seq<nat>)
    requires Rising(v, 0, 0xffff)
    ensures w == v
  {
    hide Gaps, Increasing;
    var gaps := SerAll(v);
    GapsSmall(v, 0);
    var back := UnserAll(gaps.value, 0xffff);
    GapsInjective(back.value, v, 0);
    w := back.value;
  }

  lemma {:induction false} GapsSmall(v: seq<nat>, shift: nat)
    requires Rising(v, shift, 0xffff)
    ensures forall i :: 0 <= i < |v| ==> 0 <= Gaps(v, shift)[i] <= 0xffff
    decreases |v|
  {
    if v != [] {
      GapsSmall(v[1..], v[0] + 1);
    }
  }

  /** No transaction on hand shares a short id with a different one of the block. */
  ghost predicate NoCollision(vtx: seq<Tx>, offers: seq<Offer>, sid: ShortId) {
    forall i, k :: 0 < i < |vtx| && 0 <= k < |offers| && sid(offers[k].hash) == sid(vtx[i].hash)
      ==> offers[k].tx == vtx[i]
  }

  /** A whole exchange: a block's message starts the block at the receiver, who asks
      for what is missing and completes it. The result is the block exactly when
      everything found on hand is genuine, as it is without short id collisions. */
  method Relay(vtx: seq<Tx>, maxTxs: nat, pool: seq<Offer>, extra: seq<Offer>, sid: ShortId,
               crowded: seq<nat> -> bool, check: seq<Tx> -> Status)
    returns (start: Status, end: Status, r: seq<Tx>, ghost have: seq<Option<Tx>>, ghost slots: seq<nat>)
    requires 0 < |vtx| <= 0xffff
    ensures start in {Ok, Invalid, Failed}
    ensures start == Invalid <==> |vtx| > maxTxs || vtx[0].isNull
    ensures start == Failed ==>
              var ids := ShortIds(vtx[1..], sid);
              !Distinct(ids) || exists i :: 0 < i <= |ids| && crowded(ids[..i])
    ensures start == Ok ==>
              && Initialised(MessageOf(vtx, sid), have, slots, pool + extra, sid)
              && |have| == |vtx| && (r == vtx <==> Genuine(have, vtx)) && end == check(r)
    ensures start == Ok && NoCollision(vtx, pool + extra, sid) ==> r == vtx
  {
    hide CountNone, Filled, Missing, MissingAt, Initialised, ShortIds, Genuine, Distinct, Position;
    r, end, have := [], Invalid, [];
    var msg := MakeMessage(vtx, sid);
    OnlyCoinbase(vtx, sid);
    var block := new PartiallyDownloadedBlock();
    start, slots := block.InitData(msg, maxTxs, pool, extra, sid, crowded);
    if start != Ok { return; }
    have := block.txnAvailable;
    InitialisedLength(msg, have, slots, pool + extra, sid);
    var wanted := block.RequestMissing();
    MissingRising(have);
    var indexes := SendIndexes(wanted);
    var txn := SendBlockTransactions(vtx, indexes);
    MissingThere(have, vtx);
    assert txn.value == Missing(have, vtx);
    end, r := block.FillBlock(txn.value, check);
    Rebuilds(have, vtx);
    if NoCollision(vtx, pool + extra, sid) { HonestRebuild(vtx, have, slots, pool + extra, sid); }
  }

  lemma OnlyCoinbase(vtx: seq<Tx>, sid: ShortId)
    requires vtx != []
    ensures var msg := MessageOf(vtx, sid);
            msg.BlockTxCount() == |vtx| && (PrefilledOk(msg.prefilled, |msg.shortIds|) <==> !vtx[0].isNull)
  {
    var msg := MessageOf(vtx, sid);
    assert Position(msg.prefilled, 0) == 0;
    assert EntryOk(msg.prefilled, |msg.shortIds|, 0) <==> !vtx[0].isNull;
  }

  lemma InitialisedLength(msg: Message, a: seq<Option<Tx>>, slots: seq<nat>, offers: seq<Offer>, sid: ShortId)
    requires Initialised(msg, a, slots, offers, sid)
    ensures |a| == msg.BlockTxCount()
  {
  }

  lemma MissingRising(a: seq<Option<Tx>>)
    requires |a| <= 0xffff
    ensures Rising(MissingAt(a), 0, 0xffff) && forall i :: 0 <= i < |MissingAt(a)| ==> MissingAt(a)[i] < |a|
  {
    hide MissingAt, Increasing;
    MissingAtIncreases(a);
  }

  lemma PrefilledStay(a: seq<Option<Tx>>, b: seq<Option<Tx>>, p: seq<Prefilled>, slots: seq<nat>)
    requires Placed(a, p, |p|) && |b| == |a| && Shared(|a|, p, slots)
    requires forall i :: 0 <= i < |a| && i !in slots ==> b[i] == a[i]
    ensures forall k :: 0 <= k < |p| ==> 0 <= Position(p, k) < |b| && b[Position(p, k)] == Some(p[k].tx)
  {
    hide Position, Increasing;
    forall k | 0 <= k < |p|
      ensures 0 <= Position(p, k) < |b| && b[Position(p, k)] == Some(p[k].tx)
    {
      assert IsPlace(p, |p|, Position(p, k));
    }
  }

  lemma {:induction false} MatchesAppend(x: seq<Offer>, y: seq<Offer>, sid: ShortId, id: nat)
    ensures Matches(x + y, sid, id) == Matches(x, sid, id) + Matches(y, sid, id)
  {
    if y == [] {
      assert x + y == x;
    } else {
      MatchesAppend(x, y[..|y| - 1], sid, id);
      assert (x + y)[..|x + y| - 1] == x + y[..|y| - 1];
    }
  }

  lemma MatchesPrefix(x: seq<Offer>, n: nat, sid: ShortId, id: nat)
    requires n <= |x|
    ensures Matches(x[..n], sid, id) <= Matches(x, sid, id)
  {
    MatchesAppend(x[..n], x[n..], sid, id);
    assert x == x[..n] + x[n..];
  }

  /** A slot is filled by an offer with its short id, and is left empty only if no
      offer or more than one has that id. */
  ghost predicate SlotDone(v: Option<Tx>, offers: seq<Offer>, sid: ShortId, id: nat) {
    && (v.Some? ==> Offered(offers, sid, id, v.value))
    && (v == None ==> Matches(offers, sid, id) != 1)
  }

  lemma SlotEnds(v: Option<Tx>, have: bool, pool: seq<Offer>, x: nat, extra: seq<Offer>, y: nat, sid: ShortId, id: nat)
    requires x <= |pool| && y <= |extra| && SlotOk(v, have, pool[..x] + extra[..y], sid, id)
    requires !have ==> x == |pool| && y == |extra|
    ensures SlotDone(v, pool + extra, sid, id)
  {
    hide Matches;
    MatchesAppend(pool[..x], extra[..y], sid, id);
    MatchesAppend(pool, extra, sid, id);
    MatchesPrefix(pool, x, sid, id);
    MatchesPrefix(extra, y, sid, id);
    if !have {
      assert pool[..x] == pool && extra[..y] == extra;
    }
    if v.Some? {
      var seen := pool[..x] + extra[..y];
      var k :| 0 <= k < |seen| && sid(seen[k].hash) == id && seen[k].tx == v.value;
      assert seen[k] == (pool + extra)[if k < x then k else |pool| + k - x];
    }
  }

  /** Slots and prefilled positions share out the block. */
  ghost predicate Shared(count: nat, p: seq<Prefilled>, slots: seq<nat>) {
    && Increasing(slots)
    && forall i :: 0 <= i < count ==> (i in slots <==> !IsPlace(p, |p|, i))
  }

  /** What InitData leaves when it succeeds. */
  ghost predicate Initialised(msg: Message, a: seq<Option<Tx>>, slots: seq<nat>, offers: seq<Offer>, sid: ShortId) {
    var p := msg.prefilled;
    && |a| == msg.BlockTxCount() && |slots| == |msg.shortIds| && Shared(|a|, p, slots)
    && (forall k :: 0 <= k < |p| ==> 0 <= Position(p, k) < |a| && a[Position(p, k)] == Some(p[k].tx))
    && (forall j :: 0 <= j < |slots| ==> slots[j] < |a| && SlotDone(a[slots[j]], offers, sid, msg.shortIds[j]))
  }

  /** The slots are exactly the positions the prefilled transactions leave. */
  lemma SlotsShare(a: seq<Option<Tx>>, p: seq<Prefilled>, ids: seq<nat>, slots: seq<nat>)
    requires Placed(a, p, |p|) && Slotted(a, ids, slots) && CountNone(a) == |ids|
    ensures Shared(|a|, p, slots)
  {
    hide Position, CountNone, Increasing;
    SlotsIncrease(a, ids, slots);
    forall i | 0 <= i < |a|
      ensures i in slots <==> a[i] == None
      ensures a[i] == None <==> !IsPlace(p, |p|, i)
    {
      if a[i] == None { EmptyIsSlot(a, ids, slots, i); }
      PlaceTaken(a, p, i);
    }
  }

  lemma PlaceTaken(a: seq<Option<Tx>>, p: seq<Prefilled>, i: nat)
    requires Placed(a, p, |p|) && i < |a|
    ensures a[i] == None <==> !IsPlace(p, |p|, i)
  {
    hide Position;
  }

  lemma EmptyIsSlot(a: seq<Option<Tx>>, ids: seq<nat>, slots: seq<nat>, i: nat)
    requires Slotted(a, ids, slots) && CountNone(a) == |ids| && i < |a| && a[i] == None
    ensures i in slots
  {
    hide CountNone;
    CountStep(a, i);
    CountPrefix(a, i + 1, |a|);
    assert a[..|a|] == a;
    var c := CountNone(a[..i]);
    SlotUnique(a, c, i, c, slots[c]);
    SlotUnique(a, c, slots[c], c, i);
  }

  lemma SlotsStart(a: seq<Option<Tx>>, have: seq<bool>, ids: seq<nat>, slots: seq<nat>, sid: ShortId)
    requires Slotted(a, ids, slots) && |have| == |a| && forall i :: 0 <= i < |a| ==> !have[i]
    ensures SlotsOk(a, have, ids, slots, [], sid)
  {
    hide CountNone;
  }

  /** A slot that nothing matched means that both lists were gone through. */
  lemma ScanComplete(a: seq<Option<Tx>>, have: seq<bool>, b: seq<Option<Tx>>, now: seq<bool>,
                     ids: seq<nat>, slots: seq<nat>,
                     pool: seq<Offer>, x: nat, extra: seq<Offer>, y: nat, sid: ShortId, j: nat)
    requires x <= |pool| && y <= |extra| && j < |ids|
    requires SlotsOk(a, have, ids, slots, pool[..x], sid) && (x == |pool| || CountNone(a) == 0)
    requires SlotsOk(b, now, ids, slots, pool[..x] + extra[..y], sid) && (y == |extra| || CountNone(b) == 0)
    ensures SlotDone(b[slots[j]], pool + extra, sid, ids[j])
  {
    hide Matches, CountNone, Offered, SlotDone;
    NoneLeft(a);
    NoneLeft(b);
    MatchesAppend(pool[..x], extra[..y], sid, ids[j]);
    SlotEnds(b[slots[j]], now[slots[j]], pool, x, extra, y, sid, ids[j]);
  }

  lemma FindId(ids: seq<nat>, id: nat) returns (j: nat)
    requires id in ids
    ensures j < |ids| && ids[j] == id
  {
    j :| 0 <= j < |ids| && ids[j] == id;
  }

  lemma EmptyUntilHad(a: seq<Option<Tx>>, have: seq<bool>, ids: seq<nat>, slots: seq<nat>,
                      offers: seq<Offer>, sid: ShortId, j: nat)
    requires SlotsOk(a, have, ids, slots, offers, sid) && j < |ids| && !have[slots[j]]
    ensures a[slots[j]] == None
  {
  }

  // ---------- matching what the node has ----------

  /** How many offers have this short id. */
  ghost function Matches(offers: seq<Offer>, sid: ShortId, id: nat): nat {
    if offers == [] then 0
    else Matches(offers[..|offers| - 1], sid, id) + if sid(offers[|offers| - 1].hash) == id then 1 else 0
  }

  ghost predicate Offered(offers: seq<Offer>, sid: ShortId, id: nat, tx: Tx) {
    exists k :: 0 <= k < |offers| && sid(offers[k].hash) == id && offers[k].tx == tx
  }

  /** A slot holds an offer that matches its id, and is empty only if nothing has
      matched yet or more than one offer has. */
  ghost predicate SlotOk(v: Option<Tx>, have: bool, offers: seq<Offer>, sid: ShortId, id: nat) {
    && (have <==> Matches(offers, sid, id) > 0)
    && (v.Some? ==> have && Offered(offers, sid, id, v.value))
    && (v == None && have ==> Matches(offers, sid, id) >= 2)
  }

  ghost predicate SlotsOk(a: seq<Option<Tx>>, have: seq<bool>, ids: seq<nat>, slots: seq<nat>,
                          offers: seq<Offer>, sid: ShortId)
  {
    && |slots| == |ids| && |have| == |a|
    && forall j :: 0 <= j < |ids| ==> slots[j] < |a| && SlotOk(a[slots[j]], have[slots[j]], offers, sid, ids[j])
  }

  lemma MatchesMore(offers: seq<Offer>, o: Offer, sid: ShortId, id: nat)
    ensures Matches(offers + [o], sid, id) == Matches(offers, sid, id) + if sid(o.hash) == id then 1 else 0
  {
    assert (offers + [o])[..|offers|] == offers;
  }

  lemma OfferedMore(offers: seq<Offer>, o: Offer, sid: ShortId, id: nat, tx: Tx)
    ensures Offered(offers, sid, id, tx) ==> Offered(offers + [o], sid, id, tx)
    ensures sid(o.hash) == id ==> Offered(offers + [o], sid, id, o.tx)
  {
    var all := offers + [o];
    assert all[|offers|] == o;
    if Offered(offers, sid, id, tx) {
      var k :| 0 <= k < |offers| && sid(offers[k].hash) == id && offers[k].tx == tx;
      assert all[k] == offers[k];
    }
  }

  /** What one more offer does to a slot. */
  function Considered(v: Option<Tx>, have: bool, o: Offer, isExtra: bool): Option<Tx> {
    if !have then Some(o.tx)
    else if v.Some? && (!isExtra || v.value.hash != o.tx.hash) then None
    else v
  }

  lemma SlotStep(v: Option<Tx>, have: bool, offers: seq<Offer>, sid: ShortId, id: nat, o: Offer, isExtra: bool)
    requires SlotOk(v, have, offers, sid, id)
    ensures var hit := sid(o.hash) == id;
            SlotOk(if hit then Considered(v, have, o, isExtra) else v, have || hit, offers + [o], sid, id)
  {
    hide Matches, Offered;
    MatchesMore(offers, o, sid, id);
    OfferedMore(offers, o, sid, id, if v.Some? then v.value else o.tx);
  }

  ghost predicate Increasing(s: seq<nat>) {
    forall i, j :: 0 <= i < j < |s| ==> s[i] < s[j]
  }

  lemma SlotsIncrease(a: seq<Option<Tx>>, ids: seq<nat>, slots: seq<nat>)
    requires Slotted(a, ids, slots)
    ensures Increasing(slots) && |slots| == |ids| && forall j :: 0 <= j < |slots| ==> slots[j] < |a|
  {
    hide IsSlot;
    forall i, j | 0 <= i < j < |slots|
      ensures slots[i] < slots[j]
    {
      SlotUnique(a, i, slots[i], j, slots[j]);
    }
    forall j | 0 <= j < |slots|
      ensures slots[j] < |a|
    {
      SlotInside(a, j, slots[j]);
    }
  }

  /** An offer for short id j changes slot j only. */
  lemma SlotsStep(a: seq<Option<Tx>>, have: seq<bool>, ids: seq<nat>, slots: seq<nat>, offers: seq<Offer>, sid: ShortId,
                  o: Offer, isExtra: bool, j: nat)
    requires SlotsOk(a, have, ids, slots, offers, sid) && Distinct(ids) && Increasing(slots)
    requires j < |ids| && sid(o.hash) == ids[j]
    ensures var s := slots[j];
            SlotsOk(a[s := Considered(a[s], have[s], o, isExtra)], have[s := true], ids, slots, offers + [o], sid)
  {
    hide SlotOk, Considered;
    var s := slots[j];
    var b, h := a[s := Considered(a[s], have[s], o, isExtra)], have[s := true];
    forall i | 0 <= i < |ids|
      ensures SlotOk(b[slots[i]], h[slots[i]], offers + [o], sid, ids[i])
    {
      SlotStep(a[slots[i]], have[slots[i]], offers, sid, ids[i], o, isExtra);
    }
  }

  lemma SlotsMiss(a: seq<Option<Tx>>, have: seq<bool>, ids: seq<nat>, slots: seq<nat>,
                  offers: seq<Offer>, sid: ShortId, o: Offer)
    requires SlotsOk(a, have, ids, slots, offers, sid) && sid(o.hash) !in ids
    ensures SlotsOk(a, have, ids, slots, offers + [o], sid)
  {
    hide SlotOk;
    forall i | 0 <= i < |ids|
      ensures SlotOk(a[slots[i]], have[slots[i]], offers + [o], sid, ids[i])
    {
      SlotStep(a[slots[i]], have[slots[i]], offers, sid, ids[i], o, false);
    }
  }

  lemma NothingPlaced(a: seq<Option<Tx>>, p: seq<Prefilled>)
    requires forall i :: 0 <= i < |a| ==> a[i] == None
    ensures Placed(a, p, 0)
  {
  }

  lemma EntryFits(p: seq<Prefilled>, ids: nat, k: nat)
    requires k < |p|
    ensures Position(p, k) == Position(p, k - 1) + p[k].index + 1
    ensures EntryOk(p, ids, k) <==> !p[k].tx.isNull && Position(p, k) <= 0xffff && Position(p, k) <= ids + k
  {
  }

  // ---------- lists of indexes as differences ----------

  const MAX64: nat := 0xffff_ffff_ffff_ffff

  /** What is written for each index: the gap since the one before. */
  ghost function Gaps(v: seq<nat>, shift: nat): (r: seq<int>)
    ensures |r| == |v|
    decreases |v|
  {
    if v == [] then [] else [v[0] - shift] + Gaps(v[1..], v[0] + 1)
  }

  /** Strictly increasing from `shift` on, up to `max`. */
  ghost predicate Rising(v: seq<nat>, shift: nat, max: nat) {
    (forall i :: 0 <= i < |v| ==> shift <= v[i] <= max) && Increasing(v)
  }

  class DifferenceFormatter {
    var shift: nat

    constructor ()
      ensures shift == 0
    {
      shift := 0;
    }

    /** The number to write for v, or an error. */
    method Ser(v: nat) returns (r: Option<nat>)
      requires v <= MAX64
      modifies this
      ensures r.Some? <==> old(shift) <= v < MAX64
      ensures r.Some? ==> r.value == v - old(shift) && shift == v + 1
      ensures r == None ==> shift == old(shift)
    {
      if v < shift || v >= MAX64 { return None; }
      r := Some(v - shift);
      shift := v + 1;
    }

    /** The value for a number n read, which must fit a type up to max; the sum is in 64 bits. */
    method Unser(n: nat, max: nat) returns (r: Option<nat>)
      requires n <= MAX64 && shift <= MAX64 && max <= MAX64
      modifies this
      ensures shift <= MAX64
      ensures r.Some? <==> old(shift) + n <= max && old(shift) + n < MAX64
      ensures r.Some? ==> r.value == old(shift) + n && shift == r.value + 1
    {
      shift := (shift + n) % (MAX64 + 1);
      if shift < n || shift >= MAX64 || shift > max { return None; }
      r := Some(shift);
      shift := shift + 1;
    }
  }

  method SerAll(v: seq<nat>) returns (r: Option<seq<nat>>)
    requires forall i :: 0 <= i < |v| ==> v[i] <= MAX64
    ensures r.Some? <==> Increasing(v) && forall i :: 0 <= i < |v| ==> v[i] < MAX64
    ensures r.Some? ==> r.value == Gaps(v, 0)
  {
    hide Increasing, Gaps;
    var f := new DifferenceFormatter();
    var out: seq<nat> := [];
    assert v[0..] == v;
    NoneIncreasing(v);
    for i := 0 to |v|
      invariant f.shift == if i == 0 then 0 else v[i - 1] + 1
      invariant Increasing(v[..i]) && |out| == i && forall j :: 0 <= j < i ==> v[j] < MAX64
      invariant Gaps(v, 0) == out + Gaps(v[i..], f.shift)
    {
      IncreasingSnoc(v, i);
      GapsFirst(v[i..], f.shift);
      assert v[i..][1..] == v[i + 1..];
      var g := f.Ser(v[i]);
      if g == None {
        return None;
      }
      out := out + [g.value];
    }
    assert v[..|v|] == v;
    GapsNone(f.shift);
    assert v[|v|..] == [];
    r := Some(out);
  }

  lemma NoneIncreasing(v: seq<nat>)
    ensures Increasing(v[..0])
  {
  }

  lemma GapsNone(shift: nat)
    ensures Gaps([], shift) == []
  {
  }

  lemma GapsFirst(v: seq<nat>, shift: nat)
    requires v != []
    ensures Gaps(v, shift) == [v[0] - shift] + Gaps(v[1..], v[0] + 1)
  {
  }

  lemma IncreasingSnoc(v: seq<nat>, i: nat)
    requires i < |v| && Increasing(v[..i])
    ensures Increasing(v[..i + 1]) <==> i == 0 || v[i - 1] < v[i]
    ensures Increasing(v) ==> Increasing(v[..i + 1])
  {
    var a := v[..i + 1];
    assert forall j :: 0 <= j < i ==> v[..i][j] == a[j];
    if i > 0 && v[i - 1] < v[i] {
      assert v[..i][i - 1] == v[i - 1];
    }
  }

  /** The largest value that can be sent for a type up to max. */
  function Highest(max: nat): nat {
    if max < MAX64 then max else MAX64 - 1
  }

  method UnserAll(gaps: seq<nat>, max: nat) returns (r: Option<seq<nat>>)
    requires max <= MAX64 && forall i :: 0 <= i < |gaps| ==> gaps[i] <= MAX_SIZE
    ensures r.Some? ==> Rising(r.value, 0, Highest(max)) && Gaps(r.value, 0) == gaps
    ensures r == None ==> forall v: seq<nat> :: Rising(v, 0, Highest(max)) ==> Gaps(v, 0) != gaps
  {
    var f := new DifferenceFormatter();
    var out: seq<nat> := [];
    ghost var top := Highest(max);
    for i := 0 to |gaps|
      invariant f.shift <= MAX64 && |out| == i
      invariant f.shift == if i == 0 then 0 else out[i - 1] + 1
      invariant Rising(out, 0, top) && Gaps(out, 0) == gaps[..i]
    {
      var x := f.Unser(gaps[i], max);
      if x == None {
        forall v: seq<nat> | Rising(v, 0, top)
          ensures Gaps(v, 0) != gaps
        {
          if Gaps(v, 0) == gaps { GapsPrefix(v, out, gaps, i, top); }
        }
        return None;
      }
      GapsSnoc(out, 0, x.value);
      assert gaps[..i + 1] == gaps[..i] + [gaps[i]];
      RisingSnoc(out, x.value, top);
      out := out + [x.value];
    }
    assert gaps[..|gaps|] == gaps;
    r := Some(out);
  }

  lemma RisingSnoc(v: seq<nat>, x: nat, max: nat)
    requires Rising(v, 0, max) && x <= max && (v != [] ==> v[|v| - 1] < x)
    ensures Rising(v + [x], 0, max)
  {
    forall i | 0 <= i < |v|
      ensures v[i] < x
    {
      if i < |v| - 1 { assert v[i] < v[|v| - 1]; }
    }
  }

  lemma {:induction false} GapsSnoc(v: seq<nat>, shift: nat, x: nat)
    ensures Gaps(v + [x], shift) == Gaps(v, shift) + [x - if v == [] then shift else v[|v| - 1] + 1]
    decreases |v|
  {
    if v == [] {
      assert (v + [x])[1..] == [];
    } else {
      assert (v + [x])[1..] == v[1..] + [x];
      GapsSnoc(v[1..], v[0] + 1, x);
    }
  }

  /** Gaps determine the values. */
  lemma {:induction false} GapsInjective(v: seq<nat>, w: seq<nat>, shift: nat)
    requires Gaps(v, shift) == Gaps(w, shift)
    ensures v == w
    decreases |v|
  {
    assert |Gaps(v, shift)| == |Gaps(w, shift)|;
    if v != [] {
      assert Gaps(v, shift)[0] == Gaps(w, shift)[0];
      assert Gaps(v, shift)[1..] == Gaps(v[1..], v[0] + 1) && Gaps(w, shift)[1..] == Gaps(w[1..], w[0] + 1);
      GapsInjective(v[1..], w[1..], v[0] + 1);
      assert v == [v[0]] + v[1..] && w == [w[0]] + w[1..];
    }
  }

  lemma {:induction false} GapsTake(v: seq<nat>, shift: nat, i: nat)
    requires i <= |v|
    ensures Gaps(v[..i], shift) == Gaps(v, shift)[..i]
    decreases i
  {
    if i > 0 {
      GapsTake(v[1..], v[0] + 1, i - 1);
      assert v[..i][1..] == v[1..][..i - 1];
    }
  }

  /** Where decoding fails, no rising list has those gaps. */
  lemma GapsPrefix(v: seq<nat>, out: seq<nat>, gaps: seq<nat>, i: nat, max: nat)
    requires Rising(v, 0, max) && Gaps(v, 0) == gaps && i < |gaps| && |out| == i && Gaps(out, 0) == gaps[..i]
    ensures (if i == 0 then 0 else out[i - 1] + 1) + gaps[i] <= max
  {
    GapsTake(v, 0, i);
    GapsTake(v, 0, i + 1);
    GapsInjective(v[..i], out, 0);
    assert v[..i + 1] == v[..i] + [v[i]];
    GapsSnoc(v[..i], 0, v[i]);
    assert Gaps(v, 0)[..i + 1][i] == gaps[i];
  }
}
