/** The cuckoo cache as values: what a displacement chain and an ageing scan do
    to the slots, and what they can never do. */
module CuckooModel {
  import opened Nonlinear

  const INVALID: nat := 0xffff_ffff

  /** The eight 32-bit hashes of an element, and the number of slots. */
  datatype Params<!Element> = Params(hash: (Element, nat) -> nat, size: nat)

  ghost predicate ParamsOk<Element>(p: Params<Element>) {
    2 <= p.size <= INVALID
  }

  /** A hash scaled to the table as a 32-bit fixed-point fraction. */
  function Location(h: nat, size: nat): (loc: nat)
    requires size > 0
    ensures loc < size
  {
    ScaledBelow(h % TWO32, size);
    (h % TWO32) * size / TWO32
  }

  function Locs<Element>(p: Params<Element>, e: Element): (locs: seq<nat>)
    requires p.size > 0
    ensures |locs| == 8 && forall k :: 0 <= k < 8 ==> locs[k] < p.size
  {
    [Location(p.hash(e, 0), p.size), Location(p.hash(e, 1), p.size),
     Location(p.hash(e, 2), p.size), Location(p.hash(e, 3), p.size),
     Location(p.hash(e, 4), p.size), Location(p.hash(e, 5), p.size),
     Location(p.hash(e, 6), p.size), Location(p.hash(e, 7), p.size)]
  }

  /** table: the elements; recent: the epoch flags; trash: the collection flags. */
  datatype Store<Element> = Store(table: seq<Element>, recent: seq<bool>, trash: seq<bool>)

  ghost predicate StoreOk<Element>(p: Params<Element>, st: Store<Element>) {
    ParamsOk(p) && |st.table| == |st.recent| == |st.trash| == p.size
  }

  /** Where in `locs`, from position k on, the element is; 8 if nowhere. */
  function FindSame<Element(==)>(table: seq<Element>, locs: seq<nat>, e: Element, k: nat): (r: nat)
    requires k <= |locs| && forall i :: 0 <= i < |locs| ==> locs[i] < |table|
    ensures k <= r <= |locs|
    ensures r < |locs| ==> table[locs[r]] == e
    ensures forall i :: k <= i < r ==> table[locs[i]] != e
    decreases |locs| - k
  {
    if k == |locs| || table[locs[k]] == e then k else FindSame(table, locs, e, k + 1)
  }

  function FindTrash(trash: seq<bool>, locs: seq<nat>, k: nat): (r: nat)
    requires k <= |locs| && forall i :: 0 <= i < |locs| ==> locs[i] < |trash|
    ensures k <= r <= |locs|
    ensures r < |locs| ==> trash[locs[r]]
    ensures forall i :: k <= i < r ==> !trash[locs[i]]
    decreases |locs| - k
  {
    if k == |locs| || trash[locs[k]] then k else FindTrash(trash, locs, k + 1)
  }

  function FindLoc(locs: seq<nat>, loc: nat, k: nat): (r: nat)
    requires k <= |locs|
    ensures k <= r <= |locs|
    ensures r < |locs| ==> locs[r] == loc
    ensures forall i :: k <= i < r ==> locs[i] != loc
    decreases |locs| - k
  {
    if k == |locs| || locs[k] == loc then k else FindLoc(locs, loc, k + 1)
  }

  /** The location to displace: the one after the last, cyclically. */
  function NextLoc(locs: seq<nat>, lastLoc: nat): nat
    requires |locs| == 8
  {
    locs[(1 + FindLoc(locs, lastLoc, 0)) % 8]
  }

  /** With no location looked at yet, the search runs past the end and the second
      location is taken; it is the first only where the two coincide. */
  lemma FirstDisplaced<Element>(p: Params<Element>, e: Element)
    requires ParamsOk(p)
    ensures NextLoc(Locs(p, e), INVALID) == Locs(p, e)[1]
    ensures NextLoc(Locs(p, e), INVALID) == Locs(p, e)[0] <==> Locs(p, e)[0] == Locs(p, e)[1]
  {
    hide Locs;
  }

  datatype Outcome<Element> =
    | Kept(loc: nat)                              // it was there already
    | Reused(loc: nat)                            // the chain ended in a discardable slot
    | Dropped(element: Element, wasRecent: bool)  // the chain was too long

  /** The displacement chain with `depth` tries left. */
  function Chain<Element>(p: Params<Element>, st: Store<Element>, e: Element, recent: bool,
                          lastLoc: nat, depth: nat): (r: (Store<Element>, Outcome<Element>))
    requires p.size > 0 && |st.table| == |st.recent| == |st.trash| == p.size
    decreases depth
  {
    if depth == 0 then (st, Dropped(e, recent))
    else
      var locs := Locs(p, e);
      var k := FindTrash(st.trash, locs, 0);
      if k < 8 then
        (Store(st.table[locs[k] := e], st.recent[locs[k] := recent], st.trash[locs[k] := false]), Reused(locs[k]))
      else
        var loc := NextLoc(locs, lastLoc);
        Chain(p, st.(table := st.table[loc := e], recent := st.recent[loc := recent]),
              st.table[loc], st.recent[loc], loc, depth - 1)
  }

  function Insert<Element(==)>(p: Params<Element>, st: Store<Element>, e: Element, depth: nat)
    : (r: (Store<Element>, Outcome<Element>))
    requires p.size > 0 && |st.table| == |st.recent| == |st.trash| == p.size
  {
    var locs := Locs(p, e);
    var k := FindSame(st.table, locs, e, 0);
    if k < 8 then
      (st.(recent := st.recent[locs[k] := true], trash := st.trash[locs[k] := false]), Kept(locs[k]))
    else
      Chain(p, st, e, true, INVALID, depth)
  }

  // ---------- what an insert adds and removes ----------

  ghost function Pairs<Element>(st: Store<Element>): seq<(Element, bool)>
    requires |st.table| == |st.recent|
  {
    seq(|st.table|, i requires 0 <= i < |st.table| => (st.table[i], st.recent[i]))
  }

  lemma SwapOut<T>(s: seq<T>, i: nat, x: T)
    requires i < |s|
    ensures multiset(s[i := x]) + multiset{s[i]} == multiset(s) + multiset{x}
  {
    assert s == s[..i] + [s[i]] + s[i + 1..];
    assert s[i := x] == s[..i] + [x] + s[i + 1..];
  }

  /** What left the table: the content of the discardable slot that was
      reused, or the element that was displaced last. */
  ghost function Removed<Element>(st: Store<Element>, out: Outcome<Element>): (Element, bool)
    requires |st.table| == |st.recent| && (out.Reused? ==> out.loc < |st.table|) && !out.Kept?
  {
    if out.Reused? then (st.table[out.loc], st.recent[out.loc]) else (out.element, out.wasRecent)
  }

  /** One displacement. */
  ghost function Displaced<Element>(st: Store<Element>, loc: nat, e: Element, recent: bool): Store<Element>
    requires loc < |st.table| == |st.recent|
  {
    st.(table := st.table[loc := e], recent := st.recent[loc := recent])
  }

  lemma ChainUnfold<Element>(p: Params<Element>, st: Store<Element>, e: Element, recent: bool, lastLoc: nat, depth: nat)
    requires StoreOk(p, st)
    ensures depth == 0 ==> Chain(p, st, e, recent, lastLoc, depth) == (st, Dropped(e, recent))
    ensures depth > 0 ==>
              var locs := Locs(p, e);
              var k := FindTrash(st.trash, locs, 0);
              if k < 8 then
                Chain(p, st, e, recent, lastLoc, depth) ==
                  (Displaced(st, locs[k], e, recent).(trash := st.trash[locs[k] := false]), Reused(locs[k]))
              else
                var loc := NextLoc(locs, lastLoc);
                Chain(p, st, e, recent, lastLoc, depth) ==
                  Chain(p, Displaced(st, loc, e, recent), st.table[loc], st.recent[loc], loc, depth - 1)
  {
  }

  /** st' has `gained` in place of one occurrence of `lost`, and otherwise the same
      elements with the same epoch flags. */
  ghost predicate Exchanges<Element>(st: Store<Element>, st': Store<Element>,
                                     gained: (Element, bool), lost: (Element, bool)) {
    && |st.table| == |st.recent| && |st'.table| == |st'.recent|
    && multiset(Pairs(st')) + multiset{lost} == multiset(Pairs(st)) + multiset{gained}
    && multiset(st'.table) + multiset{lost.0} == multiset(st.table) + multiset{gained.0}
  }

  lemma ExchangeSelf<Element>(st: Store<Element>, x: (Element, bool))
    requires |st.table| == |st.recent|
    ensures Exchanges(st, st, x, x)
  {
  }

  lemma ExchangeTrans<Element>(st: Store<Element>, st1: Store<Element>, st2: Store<Element>,
                               x: (Element, bool), y: (Element, bool), z: (Element, bool))
    requires Exchanges(st, st1, x, y) && Exchanges(st1, st2, y, z)
    ensures Exchanges(st, st2, x, z)
  {
  }

  lemma DisplaceExchanges<Element>(st: Store<Element>, loc: nat, e: Element, recent: bool, trash: seq<bool>)
    requires loc < |st.table| == |st.recent|
    ensures Exchanges(st, Displaced(st, loc, e, recent).(trash := trash), (e, recent), (st.table[loc], st.recent[loc]))
  {
    SwapOut(Pairs(st), loc, (e, recent));
    SwapOut(st.table, loc, e);
    assert Pairs(Displaced(st, loc, e, recent).(trash := trash)) == Pairs(st)[loc := (e, recent)];
  }

  /** A chain makes at most the one discardable slot live where it ends, and
      leaves all other discardable slots alone. */
  lemma {:induction false} ChainFrame<Element>(p: Params<Element>, st: Store<Element>, e: Element, recent: bool,
                                               lastLoc: nat, depth: nat)
    requires StoreOk(p, st)
    ensures var (st', out) := Chain(p, st, e, recent, lastLoc, depth);
            && StoreOk(p, st') && !out.Kept?
            && (out.Reused? ==> out.loc < p.size && st.trash[out.loc])
            && st'.trash == (if out.Reused? then st.trash[out.loc := false] else st.trash)
            && (forall i :: 0 <= i < p.size && st.trash[i] && !(out.Reused? && out.loc == i) ==>
                  st'.table[i] == st.table[i] && st'.recent[i] == st.recent[i])
    decreases depth
  {
    hide Locs, Chain;
    ChainUnfold(p, st, e, recent, lastLoc, depth);
    if depth > 0 {
      var locs := Locs(p, e);
      var k := FindTrash(st.trash, locs, 0);
      if k == 8 {
        var loc := NextLoc(locs, lastLoc);
        assert !st.trash[loc];
        ChainFrame(p, Displaced(st, loc, e, recent), st.table[loc], st.recent[loc], loc, depth - 1);
      }
    }
  }

  /** A chain exchanges exactly one element for the new one, together with
      their epoch flags. */
  lemma {:induction false} ChainExchanges<Element>(p: Params<Element>, st: Store<Element>, e: Element, recent: bool,
                                                   lastLoc: nat, depth: nat)
    requires StoreOk(p, st)
    ensures var (st', out) := Chain(p, st, e, recent, lastLoc, depth);
            && StoreOk(p, st') && !out.Kept? && (out.Reused? ==> out.loc < p.size)
            && Exchanges(st, st', (e, recent), Removed(st, out))
    decreases depth
  {
    hide Locs, Chain, Exchanges;
    ChainFrame(p, st, e, recent, lastLoc, depth);
    ChainUnfold(p, st, e, recent, lastLoc, depth);
    if depth == 0 {
      ExchangeSelf(st, (e, recent));
    } else {
      var locs := Locs(p, e);
      var k := FindTrash(st.trash, locs, 0);
      if k < 8 {
        DisplaceExchanges(st, locs[k], e, recent, st.trash[locs[k] := false]);
      } else {
        var loc := NextLoc(locs, lastLoc);
        var st1, was := Displaced(st, loc, e, recent), (st.table[loc], st.recent[loc]);
        assert !st.trash[loc];
        DisplaceExchanges(st, loc, e, recent, st.trash);
        ChainFrame(p, st1, was.0, was.1, loc, depth - 1);
        ChainExchanges(p, st1, was.0, was.1, loc, depth - 1);
        var (st', out) := Chain(p, st1, was.0, was.1, loc, depth - 1);
        assert Removed(st, out) == Removed(st1, out);
        ExchangeTrans(st, st1, st', (e, recent), was, Removed(st, out));
      }
    }
  }

  /** An insert leaves the contents alone because the element was at one of its
      locations already, or exchanges exactly one element for it: the content
      of a discardable slot, or the element displaced last. */
  lemma InsertExchanges<Element>(p: Params<Element>, st: Store<Element>, e: Element, depth: nat)
    requires StoreOk(p, st)
    ensures var (st', out) := Insert(p, st, e, depth);
            && StoreOk(p, st')
            && (out.Kept? <==> exists k :: 0 <= k < 8 && st.table[Locs(p, e)[k]] == e)
            && (out.Kept? ==>
                  && out.loc < p.size && st.table[out.loc] == e && st'.table == st.table
                  && st'.recent == st.recent[out.loc := true] && st'.trash == st.trash[out.loc := false])
            && (!out.Kept? ==>
                  && (out.Reused? ==> out.loc < p.size && st.trash[out.loc])
                  && multiset(st'.table) + multiset{Removed(st, out).0} == multiset(st.table) + multiset{e})
  {
    hide Locs;
    var locs := Locs(p, e);
    if FindSame(st.table, locs, e, 0) == 8 {
      ChainFrame(p, st, e, true, INVALID, depth);
      ChainExchanges(p, st, e, true, INVALID, depth);
    }
  }

  // ---------- elements stay where lookups search ----------

  /** Every slot holds an element at one of that element's own locations, or
      has never been written. */
  ghost predicate Homed<Element(!new)>(p: Params<Element>, st: Store<Element>, blank: Element) {
    StoreOk(p, st) &&
    forall i :: 0 <= i < p.size ==> i in Locs(p, st.table[i]) || (st.trash[i] && st.table[i] == blank)
  }

  lemma DisplaceHomed<Element(!new)>(p: Params<Element>, st: Store<Element>, blank: Element, loc: nat,
                                     e: Element, recent: bool, trash: seq<bool>)
    requires Homed(p, st, blank) && loc in Locs(p, e) && |trash| == p.size
    requires forall i :: 0 <= i < p.size && i != loc ==> trash[i] == st.trash[i]
    ensures loc < p.size && Homed(p, Displaced(st, loc, e, recent).(trash := trash), blank)
  {
  }

  lemma {:induction false} ChainHomed<Element(!new)>(p: Params<Element>, st: Store<Element>, blank: Element, e: Element,
                                                     recent: bool, lastLoc: nat, depth: nat)
    requires StoreOk(p, st) && Homed(p, st, blank)
    ensures Homed(p, Chain(p, st, e, recent, lastLoc, depth).0, blank)
    decreases depth
  {
    hide Locs, Homed;
    if depth > 0 {
      var locs := Locs(p, e);
      var k := FindTrash(st.trash, locs, 0);
      if k < 8 {
        DisplaceHomed(p, st, blank, locs[k], e, recent, st.trash[locs[k] := false]);
      } else {
        var loc := NextLoc(locs, lastLoc);
        DisplaceHomed(p, st, blank, loc, e, recent, st.trash);
        ChainHomed(p, Displaced(st, loc, e, recent), blank, st.table[loc], st.recent[loc], loc, depth - 1);
      }
    }
  }

  lemma InsertHomed<Element(!new)>(p: Params<Element>, st: Store<Element>, blank: Element, e: Element, depth: nat)
    requires Homed(p, st, blank)
    ensures Homed(p, Insert(p, st, e, depth).0, blank)
  {
    var locs := Locs(p, e);
    var k := FindSame(st.table, locs, e, 0);
    if k < 8 {
      assert st.table[locs[k] := e] == st.table;
      DisplaceHomed(p, st, blank, locs[k], e, true, st.trash[locs[k] := false]);
    } else {
      ChainHomed(p, st, blank, e, true, INVALID, depth);
    }
  }

  /** Whatever is stored is found, whether or not it has been erased. */
  lemma StoredIsFound<Element(!new)>(p: Params<Element>, st: Store<Element>, blank: Element, x: Element)
    requires Homed(p, st, blank) && x in st.table && x != blank
    ensures FindSame(st.table, Locs(p, x), x, 0) < 8
  {
    var i :| 0 <= i < p.size && st.table[i] == x;
    assert i in Locs(p, x);
  }

  // ---------- how many entries are live ----------

  /** Entries among the first n slots that are not discardable and whose epoch
      flag is `flag`. */
  ghost function Live(recent: seq<bool>, trash: seq<bool>, flag: bool, n: nat): nat
    requires n <= |recent| == |trash|
  {
    if n == 0 then 0
    else Live(recent, trash, flag, n - 1) + One(recent[n - 1] == flag && !trash[n - 1])
  }

  ghost function One(b: bool): nat { if b then 1 else 0 }

  lemma {:induction false} LiveSet(recent: seq<bool>, trash: seq<bool>, i: nat, r: bool, t: bool, flag: bool, n: nat)
    requires i < |recent| == |trash| && n <= |recent|
    ensures Live(recent[i := r], trash[i := t], flag, n) ==
            if i < n then Live(recent, trash, flag, n) - One(recent[i] == flag && !trash[i]) + One(r == flag && !t)
            else Live(recent, trash, flag, n)
  {
    if n > 0 {
      LiveSet(recent, trash, i, r, t, flag, n - 1);
    }
  }

  ghost function Load<Element>(st: Store<Element>, flag: bool): nat
    requires |st.recent| == |st.trash|
  {
    Live(st.recent, st.trash, flag, |st.recent|)
  }

  /** A chain adds at most the element it was given to the live entries. */
  lemma {:induction false} ChainLoad<Element>(p: Params<Element>, st: Store<Element>, e: Element, recent: bool,
                                              lastLoc: nat, depth: nat, flag: bool)
    requires StoreOk(p, st)
    ensures var st' := Chain(p, st, e, recent, lastLoc, depth).0;
            StoreOk(p, st') && Load(st', flag) <= Load(st, flag) + One(recent == flag)
    decreases depth
  {
    hide Locs;
    if depth > 0 {
      var locs := Locs(p, e);
      var k := FindTrash(st.trash, locs, 0);
      if k < 8 {
        LiveSet(st.recent, st.trash, locs[k], recent, false, flag, p.size);
      } else {
        var loc := NextLoc(locs, lastLoc);
        assert st.trash[loc := false] == st.trash;
        LiveSet(st.recent, st.trash, loc, recent, false, flag, p.size);
        ChainLoad(p, Displaced(st, loc, e, recent), st.table[loc], st.recent[loc], loc, depth - 1, flag);
      }
    }
  }

  lemma InsertLoad<Element>(p: Params<Element>, st: Store<Element>, e: Element, depth: nat)
    requires StoreOk(p, st)
    ensures var st' := Insert(p, st, e, depth).0;
            StoreOk(p, st') && Load(st', true) <= Load(st, true) + 1 && Load(st', false) <= Load(st, false)
  {
    hide Locs;
    var locs := Locs(p, e);
    var k := FindSame(st.table, locs, e, 0);
    if k < 8 {
      LiveSet(st.recent, st.trash, locs[k], true, false, true, p.size);
      LiveSet(st.recent, st.trash, locs[k], true, false, false, p.size);
    } else {
      ChainLoad(p, st, e, true, INVALID, depth, true);
      ChainLoad(p, st, e, true, INVALID, depth, false);
    }
  }

  // ---------- epochs ----------

  function Max(a: int, b: int): int { if a >= b then a else b }

  /** The most live entries one epoch can have. */
  function EpochLimit(epochSize: nat): nat { epochSize + Max(1, epochSize / 16) }

  /** The ageing scan that runs before an insert once the counter is used up. */
  ghost function EpochCheck<Element>(st: Store<Element>, counter: nat, epochSize: nat): (Store<Element>, nat)
    requires |st.recent| == |st.trash|
  {
    if counter != 0 then (st, counter - 1)
    else
      var unused := Load(st, true);
      if unused >= epochSize then (Aged(st), epochSize)
      else (st, Max(1, Max(epochSize / 16, epochSize - unused)))
  }

  /** The old epoch becomes discardable, the current one becomes the old. */
  ghost function Aged<Element>(st: Store<Element>): Store<Element>
    requires |st.recent| == |st.trash|
  {
    st.(recent := seq(|st.recent|, _ => false),
        trash := seq(|st.trash|, i requires 0 <= i < |st.trash| => st.trash[i] || !st.recent[i]))
  }

  lemma {:induction false} AgedLive<Element>(st: Store<Element>, n: nat)
    requires n <= |st.recent| == |st.trash|
    ensures Live(Aged(st).recent, Aged(st).trash, true, n) == 0
    ensures Live(Aged(st).recent, Aged(st).trash, false, n) == Live(st.recent, st.trash, true, n)
  {
    if n > 0 {
      AgedLive(st, n - 1);
    }
  }

  /** The current epoch cannot outgrow its limit before the next scan, and the
      old epoch is what a current one was. */
  ghost predicate LoadOk<Element>(p: Params<Element>, st: Store<Element>, counter: nat, epochSize: nat) {
    && StoreOk(p, st)
    && Load(st, true) + counter <= EpochLimit(epochSize)
    && Load(st, false) <= EpochLimit(epochSize)
  }

  lemma LoadInsert<Element>(p: Params<Element>, st: Store<Element>, counter: nat, epochSize: nat,
                            e: Element, depth: nat)
    requires LoadOk(p, st, counter, epochSize)
    ensures var (st1, counter') := EpochCheck(st, counter, epochSize);
            StoreOk(p, st1) && LoadOk(p, Insert(p, st1, e, depth).0, counter', epochSize)
  {
    var (st1, counter') := EpochCheck(st, counter, epochSize);
    if counter == 0 {
      AgedLive(st, |st.recent|);
    }
    InsertLoad(p, st1, e, depth);
  }

  // ---------- runs ----------

  datatype Op<Element> = OpInsert(e: Element) | OpContains(e: Element, erase: bool)

  datatype Cache<Element> = Cache(st: Store<Element>, counter: nat)

  /** contains: with erase, the slot found becomes discardable. */
  ghost function Looked<Element>(p: Params<Element>, st: Store<Element>, e: Element, erase: bool): Store<Element>
    requires p.size > 0 && |st.table| == |st.recent| == |st.trash| == p.size
  {
    var locs := Locs(p, e);
    var k := FindSame(st.table, locs, e, 0);
    if erase && k < 8 then st.(trash := st.trash[locs[k] := true]) else st
  }

  ghost function Step<Element>(p: Params<Element>, c: Cache<Element>, op: Op<Element>,
                               epochSize: nat, depth: nat): Cache<Element>
    requires p.size > 0 && |c.st.table| == |c.st.recent| == |c.st.trash| == p.size
  {
    match op
    case OpInsert(e) =>
      var (st1, counter') := EpochCheck(c.st, c.counter, epochSize);
      Cache(Insert(p, st1, e, depth).0, counter')
    case OpContains(e, erase) => Cache(Looked(p, c.st, e, erase), c.counter)
  }

  ghost predicate CacheOk<Element(!new)>(p: Params<Element>, c: Cache<Element>, epochSize: nat, blank: Element) {
    Homed(p, c.st, blank) && LoadOk(p, c.st, c.counter, epochSize)
  }

  lemma StepOk<Element(!new)>(p: Params<Element>, c: Cache<Element>, op: Op<Element>,
                              epochSize: nat, depth: nat, blank: Element)
    requires CacheOk(p, c, epochSize, blank)
    ensures CacheOk(p, Step(p, c, op, epochSize, depth), epochSize, blank)
  {
    match op
    case OpInsert(e) =>
      var (st1, counter') := EpochCheck(c.st, c.counter, epochSize);
      LoadInsert(p, c.st, c.counter, epochSize, e, depth);
      assert Homed(p, st1, blank);
      hide Insert, Homed;
      InsertHomed(p, st1, blank, e, depth);
    case OpContains(e, erase) =>
      var locs := Locs(p, e);
      var k := FindSame(c.st.table, locs, e, 0);
      if erase && k < 8 {
        assert c.st.recent[locs[k] := c.st.recent[locs[k]]] == c.st.recent;
        LiveSet(c.st.recent, c.st.trash, locs[k], c.st.recent[locs[k]], true, true, p.size);
        LiveSet(c.st.recent, c.st.trash, locs[k], c.st.recent[locs[k]], true, false, p.size);
      }
  }

  lemma StepShape<Element>(p: Params<Element>, c: Cache<Element>, op: Op<Element>, epochSize: nat, depth: nat)
    requires StoreOk(p, c.st)
    ensures StoreOk(p, Step(p, c, op, epochSize, depth).st)
  {
    hide Insert, Load;
    if op.OpInsert? {
      InsertLoad(p, EpochCheck(c.st, c.counter, epochSize).0, op.e, depth);
    }
  }

  ghost function Run<Element>(p: Params<Element>, c: Cache<Element>, ops: seq<Op<Element>>,
                              epochSize: nat, depth: nat): Cache<Element>
    requires StoreOk(p, c.st)
    decreases |ops|
  {
    if ops == [] then c
    else
      StepShape(p, c, ops[0], epochSize, depth);
      Run(p, Step(p, c, ops[0], epochSize, depth), ops[1..], epochSize, depth)
  }

  /** Over every sequence of inserts and lookups: the current epoch has at most
      EpochLimit live entries and all entries together at most twice that, and
      every element still stored is found. */
  lemma {:induction false} RunOk<Element(!new)>(p: Params<Element>, c: Cache<Element>, ops: seq<Op<Element>>,
                                                epochSize: nat, depth: nat, blank: Element)
    requires CacheOk(p, c, epochSize, blank)
    ensures var c' := Run(p, c, ops, epochSize, depth);
            && CacheOk(p, c', epochSize, blank)
            && Load(c'.st, true) <= EpochLimit(epochSize)
            && Load(c'.st, true) + Load(c'.st, false) <= 2 * EpochLimit(epochSize)
    decreases |ops|
  {
    if ops != [] {
      hide Homed, Step;
      var c1 := Step(p, c, ops[0], epochSize, depth);
      StepOk(p, c, ops[0], epochSize, depth, blank);
      RunOk(p, c1, ops[1..], epochSize, depth, blank);
    }
  }
}
