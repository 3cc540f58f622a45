/** The address manager with the indexes it keeps in place: two bucket tables,
    reference counts, a random order, a reverse address map and two counters. */
module AddrMan {
  import opened Options
  import opened Nonlinear
  import opened AddrBook

  datatype AddrInfo = AddrInfo(entry: Entry, nRefCount: int, fInTried: bool, nRandomPos: int)

  /** The manager's fields at one moment; the tables by their occupied slots. */
  datatype Snap = Snap(
    mapInfo: map<int, AddrInfo>, mapAddr: map<Service, int>, vRandom: seq<int>,
    newTab: map<Slot, int>, triedTab: map<Slot, int>, nNew: int, nTried: int)

  ghost predicate RandomOk(c: Snap) {
    && (forall id :: id in c.mapInfo ==>
          && 0 <= c.mapInfo[id].nRandomPos < |c.vRandom|
          && c.vRandom[c.mapInfo[id].nRandomPos] == id)
    && (forall i :: 0 <= i < |c.vRandom| ==>
          c.vRandom[i] in c.mapInfo && c.mapInfo[c.vRandom[i]].nRandomPos == i)
  }

  ghost predicate AddrOk(env: Env, c: Snap) {
    && (forall id :: id in c.mapInfo ==>
          && Norm(env, c.mapInfo[id].entry.service) in c.mapAddr
          && c.mapAddr[Norm(env, c.mapInfo[id].entry.service)] == id)
    && (forall a :: a in c.mapAddr ==>
          && c.mapAddr[a] in c.mapInfo
          && Norm(env, c.mapInfo[c.mapAddr[a]].entry.service) == a)
  }

  ghost predicate RefsOk(c: Snap) {
    && (forall id :: id in c.mapInfo ==>
          && 0 <= id
          && c.mapInfo[id].nRefCount == RefCount(c.newTab, id)
          && (c.mapInfo[id].fInTried <==> id in c.triedTab.Values))
    && (forall s :: s in c.newTab ==> c.newTab[s] in c.mapInfo && !c.mapInfo[c.newTab[s]].fInTried)
    && (forall s :: s in c.triedTab ==> c.triedTab[s] in c.mapInfo)
  }

  ghost function NewIds(mapInfo: map<int, AddrInfo>): set<int> {
    set id | id in mapInfo && !mapInfo[id].fInTried
  }

  ghost function TriedIds(mapInfo: map<int, AddrInfo>): set<int> {
    set id | id in mapInfo && mapInfo[id].fInTried
  }

  /** The two population counters; `uncounted` untried ids are in transit
      inside an operation. */
  ghost predicate CountsOk(c: Snap, uncounted: int) {
    c.nNew + uncounted == |NewIds(c.mapInfo)| && c.nTried == |TriedIds(c.mapInfo)|
  }

  ghost predicate Indexed(env: Env, c: Snap, uncounted: int) {
    RandomOk(c) && AddrOk(env, c) && RefsOk(c) && CountsOk(c, uncounted)
  }

  ghost function Entries(mapInfo: map<int, AddrInfo>): map<int, Entry> {
    map id | id in mapInfo :: mapInfo[id].entry
  }

  // ---------- how single updates act on the indexes ----------

  lemma CountsAdd(m: map<int, AddrInfo>, id: int, info: AddrInfo)
    ensures var m' := m[id := info];
            && |NewIds(m')| == |NewIds(m) - {id}| + (if info.fInTried then 0 else 1)
            && |TriedIds(m')| == |TriedIds(m) - {id}| + (if info.fInTried then 1 else 0)
  {
    NewIdsUpdate(m, id, info);
    TriedIdsUpdate(m, id, info);
  }

  lemma NewIdsUpdate(m: map<int, AddrInfo>, id: int, info: AddrInfo)
    ensures |NewIds(m[id := info])| == |NewIds(m) - {id}| + (if info.fInTried then 0 else 1)
  {
    var s := NewIds(m[id := info]);
    SetSplit(s, id);
    assert s - {id} == NewIds(m) - {id};
  }

  lemma TriedIdsUpdate(m: map<int, AddrInfo>, id: int, info: AddrInfo)
    ensures |TriedIds(m[id := info])| == |TriedIds(m) - {id}| + (if info.fInTried then 1 else 0)
  {
    var s := TriedIds(m[id := info]);
    SetSplit(s, id);
    forall x
      ensures x in s - {id} <==> x in TriedIds(m) - {id}
    {
    }
    assert s - {id} == TriedIds(m) - {id};
  }

  lemma SetSplit(s: set<int>, x: int)
    ensures |s| == |s - {x}| + (if x in s then 1 else 0)
  {
    if x in s {
      assert s == (s - {x}) + {x};
    } else {
      assert s == s - {x};
    }
  }

  lemma CountsSame(m: map<int, AddrInfo>, id: int, info: AddrInfo)
    requires id in m && info.fInTried == m[id].fInTried
    ensures NewIds(m[id := info]) == NewIds(m) && TriedIds(m[id := info]) == TriedIds(m)
  {
  }

  lemma RestatOk(env: Env, c: Snap, id: int, e: Entry, k: int)
    requires Indexed(env, c, k) && id in c.mapInfo && e.service == c.mapInfo[id].entry.service
    ensures Indexed(env, c.(mapInfo := c.mapInfo[id := c.mapInfo[id].(entry := e)]), k)
  {
    CountsSame(c.mapInfo, id, c.mapInfo[id].(entry := e));
  }

  lemma SameAddressesOk(env: Env, c: Snap, id: int, info: AddrInfo, c': Snap)
    requires RandomOk(c) && AddrOk(env, c) && id in c.mapInfo
    requires info.entry.service == c.mapInfo[id].entry.service && info.nRandomPos == c.mapInfo[id].nRandomPos
    requires c'.mapInfo == c.mapInfo[id := info] && c'.vRandom == c.vRandom && c'.mapAddr == c.mapAddr
    ensures RandomOk(c') && AddrOk(env, c')
  {
  }

  ghost function RefGained(c: Snap, s: Slot, id: int): Snap
    requires id in c.mapInfo
  {
    c.(newTab := c.newTab[s := id],
       mapInfo := c.mapInfo[id := c.mapInfo[id].(nRefCount := c.mapInfo[id].nRefCount + 1)])
  }

  lemma RefGainRefs(c: Snap, s: Slot, id: int)
    requires RefsOk(c) && s !in c.newTab && id in c.mapInfo && !c.mapInfo[id].fInTried
    ensures RefsOk(RefGained(c, s, id))
  {
    SlotsGain(c.newTab, s, id);
  }

  lemma RefGainOk(env: Env, c: Snap, s: Slot, id: int, k: int)
    requires Indexed(env, c, k) && s !in c.newTab && id in c.mapInfo && !c.mapInfo[id].fInTried
    ensures Indexed(env, RefGained(c, s, id), k)
    ensures Entries(RefGained(c, s, id).mapInfo) == Entries(c.mapInfo)
  {
    hide RefsOk, RandomOk, AddrOk;
    RefGainRefs(c, s, id);
    SameAddressesOk(env, c, id, c.mapInfo[id].(nRefCount := c.mapInfo[id].nRefCount + 1), RefGained(c, s, id));
    CountsSame(c.mapInfo, id, c.mapInfo[id].(nRefCount := c.mapInfo[id].nRefCount + 1));
  }

  ghost function RefLost(c: Snap, s: Slot): Snap
    requires s in c.newTab && c.newTab[s] in c.mapInfo
  {
    var id := c.newTab[s];
    c.(newTab := c.newTab - {s},
       mapInfo := c.mapInfo[id := c.mapInfo[id].(nRefCount := c.mapInfo[id].nRefCount - 1)])
  }

  lemma RefLoseRefs(c: Snap, s: Slot)
    requires RefsOk(c) && s in c.newTab
    ensures c.newTab[s] in c.mapInfo && c.mapInfo[c.newTab[s]].nRefCount > 0 && !c.mapInfo[c.newTab[s]].fInTried
    ensures RefsOk(RefLost(c, s))
  {
    SlotsLose(c.newTab, s);
  }

  lemma RefLoseOk(env: Env, c: Snap, s: Slot, k: int)
    requires Indexed(env, c, k) && s in c.newTab
    ensures c.newTab[s] in c.mapInfo && c.mapInfo[c.newTab[s]].nRefCount > 0 && !c.mapInfo[c.newTab[s]].fInTried
    ensures Indexed(env, RefLost(c, s), k)
    ensures Entries(RefLost(c, s).mapInfo) == Entries(c.mapInfo)
  {
    hide RefsOk, RandomOk, AddrOk;
    RefLoseRefs(c, s);
    var id := c.newTab[s];
    SameAddressesOk(env, c, id, c.mapInfo[id].(nRefCount := c.mapInfo[id].nRefCount - 1), RefLost(c, s));
    CountsSame(c.mapInfo, id, c.mapInfo[id].(nRefCount := c.mapInfo[id].nRefCount - 1));
  }

  lemma LastRef(env: Env, c: Snap, id: int, k: int)
    requires Indexed(env, c, k) && id in c.mapInfo
    ensures 0 <= id && c.mapInfo[id].nRefCount == RefCount(c.newTab, id)
    ensures c.mapInfo[id].nRefCount == 0 <==> id !in c.newTab.Values
    ensures c.mapInfo[id].fInTried <==> id in c.triedTab.Values
  {
    CountZero(c.newTab, id);
  }

  lemma ValuesGain(m: map<Slot, int>, s: Slot, id: int)
    requires s !in m
    ensures m[s := id].Values == m.Values + {id}
  {
    var m' := m[s := id];
    assert s in m' && m'[s] == id;
    forall i | i in m.Values ensures i in m'.Values {
      var t :| t in m && m[t] == i;
      assert t in m' && m'[t] == i;
    }
  }

  lemma ValuesLose(m: map<Slot, int>, s: Slot)
    requires s in m && forall t :: t in m && m[t] == m[s] ==> t == s
    ensures (m - {s}).Values == m.Values - {m[s]}
  {
    var m' := m - {s};
    forall i | i in m.Values && i != m[s] ensures i in m'.Values {
      var t :| t in m && m[t] == i;
      assert t in m' && m'[t] == i;
    }
  }

  ghost function TriedLost(c: Snap, ts: Slot): Snap
    requires ts in c.triedTab && c.triedTab[ts] in c.mapInfo
  {
    var id := c.triedTab[ts];
    c.(triedTab := c.triedTab - {ts}, nTried := c.nTried - 1,
       mapInfo := c.mapInfo[id := c.mapInfo[id].(fInTried := false)])
  }

  ghost function TriedGained(c: Snap, ts: Slot, id: int): Snap
    requires id in c.mapInfo
  {
    c.(triedTab := c.triedTab[ts := id], nTried := c.nTried + 1,
       mapInfo := c.mapInfo[id := c.mapInfo[id].(fInTried := true)])
  }

  lemma TriedLoseRefs(c: Snap, ts: Slot)
    requires RefsOk(c) && ts in c.triedTab
    requires forall t :: t in c.triedTab && c.triedTab[t] == c.triedTab[ts] ==> t == ts
    ensures c.triedTab[ts] in c.mapInfo && c.mapInfo[c.triedTab[ts]].fInTried && RefsOk(TriedLost(c, ts))
  {
    hide RefCount;
    var id := c.triedTab[ts];
    assert id in c.mapInfo;
    assert c.mapInfo[id].fInTried <==> id in c.triedTab.Values;
    assert id in c.triedTab.Values;
    ValuesLose(c.triedTab, ts);
  }

  lemma TriedLoseOk(env: Env, c: Snap, ts: Slot, k: int)
    requires Indexed(env, c, k) && ts in c.triedTab
    requires forall t :: t in c.triedTab && c.triedTab[t] == c.triedTab[ts] ==> t == ts
    ensures c.triedTab[ts] in c.mapInfo && Indexed(env, TriedLost(c, ts), k + 1)
    ensures Entries(TriedLost(c, ts).mapInfo) == Entries(c.mapInfo)
  {
    hide RefsOk, RandomOk, AddrOk, NewIds, TriedIds, Entries;
    TriedLoseRefs(c, ts);
    var id := c.triedTab[ts];
    var info := c.mapInfo[id].(fInTried := false);
    SameAddressesOk(env, c, id, info, TriedLost(c, ts));
    CountsUntry(c.mapInfo, id, info);
    EntriesUpdate(c.mapInfo, id, info);
    EntriesSame(c.mapInfo, id);
  }

  lemma CountsUntry(m: map<int, AddrInfo>, id: int, info: AddrInfo)
    requires id in m && m[id].fInTried && !info.fInTried
    ensures |NewIds(m[id := info])| == |NewIds(m)| + 1 && |TriedIds(m[id := info])| == |TriedIds(m)| - 1
  {
    CountsAdd(m, id, info);
    assert NewIds(m) - {id} == NewIds(m);
    assert id in TriedIds(m);
  }

  lemma EntriesSame(m: map<int, AddrInfo>, id: int)
    requires id in m
    ensures Entries(m)[id := m[id].entry] == Entries(m)
  {
  }

  lemma TriedGainRefs(c: Snap, ts: Slot, id: int)
    requires RefsOk(c) && ts !in c.triedTab && id in c.mapInfo
    requires c.mapInfo[id].nRefCount == 0
    ensures RefsOk(TriedGained(c, ts, id))
  {
    ValuesGain(c.triedTab, ts, id);
    CountZero(c.newTab, id);
  }

  lemma TriedGainOk(env: Env, c: Snap, ts: Slot, id: int, k: int)
    requires Indexed(env, c, k) && ts !in c.triedTab && id in c.mapInfo && !c.mapInfo[id].fInTried
    requires c.mapInfo[id].nRefCount == 0
    ensures Indexed(env, TriedGained(c, ts, id), k - 1)
    ensures Entries(TriedGained(c, ts, id).mapInfo) == Entries(c.mapInfo)
  {
    hide RefsOk, RandomOk, AddrOk;
    TriedGainRefs(c, ts, id);
    var info := c.mapInfo[id].(fInTried := true);
    SameAddressesOk(env, c, id, info, TriedGained(c, ts, id));
    CountsAdd(c.mapInfo, id, info);
    assert TriedIds(c.mapInfo) - {id} == TriedIds(c.mapInfo);
    assert id in NewIds(c.mapInfo);
  }

  ghost function Created(env: Env, c: Snap, id: int, e: Entry): Snap {
    c.(mapInfo := c.mapInfo[id := AddrInfo(e, 0, false, |c.vRandom|)],
       mapAddr := c.mapAddr[Norm(env, e.service) := id],
       vRandom := c.vRandom + [id])
  }

  lemma RecountOk(env: Env, c: Snap, delta: int, k: int)
    requires Indexed(env, c, k)
    ensures Indexed(env, c.(nNew := c.nNew + delta), k - delta)
  {
  }

  lemma CreateRandom(env: Env, c: Snap, id: int, e: Entry)
    requires RandomOk(c) && id !in c.mapInfo
    ensures RandomOk(Created(env, c, id, e))
  {
  }

  lemma CreateAddrs(env: Env, c: Snap, id: int, e: Entry)
    requires AddrOk(env, c) && id !in c.mapInfo && Norm(env, e.service) !in c.mapAddr
    ensures AddrOk(env, Created(env, c, id, e))
  {
    hide Norm;
  }

  lemma CreateRefs(env: Env, c: Snap, id: int, e: Entry)
    requires RefsOk(c) && 0 <= id && id !in c.mapInfo
    ensures RefsOk(Created(env, c, id, e))
  {
    CountZero(c.newTab, id);
  }

  lemma CreateOk(env: Env, c: Snap, id: int, e: Entry, k: int)
    requires Indexed(env, c, k) && 0 <= id && id !in c.mapInfo && Norm(env, e.service) !in c.mapAddr
    ensures Indexed(env, Created(env, c, id, e), k + 1)
  {
    hide RefsOk, RandomOk, AddrOk;
    CreateRandom(env, c, id, e);
    CreateAddrs(env, c, id, e);
    CreateRefs(env, c, id, e);
    CountsAdd(c.mapInfo, id, AddrInfo(e, 0, false, |c.vRandom|));
    assert NewIds(c.mapInfo) - {id} == NewIds(c.mapInfo);
    assert TriedIds(c.mapInfo) - {id} == TriedIds(c.mapInfo);
  }

  ghost function Swapped(c: Snap, i: nat, j: nat): Snap
    requires i < |c.vRandom| && j < |c.vRandom| && c.vRandom[i] in c.mapInfo && c.vRandom[j] in c.mapInfo
  {
    var id1, id2 := c.vRandom[i], c.vRandom[j];
    c.(mapInfo := c.mapInfo[id1 := c.mapInfo[id1].(nRandomPos := j)][id2 := c.mapInfo[id2].(nRandomPos := i)],
       vRandom := c.vRandom[i := id2][j := id1])
  }

  lemma SwapRandomOk(c: Snap, i: nat, j: nat)
    requires RandomOk(c) && i < |c.vRandom| && j < |c.vRandom| && i != j
    ensures RandomOk(Swapped(c, i, j))
  {
  }

  lemma SwapAddrs(env: Env, c: Snap, i: nat, j: nat)
    requires RandomOk(c) && AddrOk(env, c) && i < |c.vRandom| && j < |c.vRandom| && i != j
    ensures AddrOk(env, Swapped(c, i, j))
  {
    hide Norm;
  }

  lemma SwapRefs(c: Snap, i: nat, j: nat)
    requires RandomOk(c) && RefsOk(c) && i < |c.vRandom| && j < |c.vRandom| && i != j
    ensures RefsOk(Swapped(c, i, j))
    ensures Entries(Swapped(c, i, j).mapInfo) == Entries(c.mapInfo)
  {
    hide RefCount;
  }

  lemma SwapOk(env: Env, c: Snap, i: nat, j: nat, k: int)
    requires Indexed(env, c, k) && i < |c.vRandom| && j < |c.vRandom| && i != j
    ensures c.vRandom[i] in c.mapInfo && c.vRandom[j] in c.mapInfo && Indexed(env, Swapped(c, i, j), k)
    ensures Entries(Swapped(c, i, j).mapInfo) == Entries(c.mapInfo)
  {
    hide RefsOk, AddrOk;
    SwapRandomOk(c, i, j);
    SwapAddrs(env, c, i, j);
    SwapRefs(c, i, j);
    var id1, id2 := c.vRandom[i], c.vRandom[j];
    var m := c.mapInfo[id1 := c.mapInfo[id1].(nRandomPos := j)];
    CountsSame(c.mapInfo, id1, m[id1]);
    CountsSame(m, id2, m[id2].(nRandomPos := i));
  }

  ghost function Popped(env: Env, c: Snap, id: int): Snap
    requires id in c.mapInfo && |c.vRandom| > 0
  {
    c.(mapInfo := c.mapInfo - {id},
       mapAddr := c.mapAddr - {Norm(env, c.mapInfo[id].entry.service)},
       vRandom := c.vRandom[..|c.vRandom| - 1],
       nNew := c.nNew - 1)
  }

  lemma PopAddrs(env: Env, c: Snap, id: int)
    requires RandomOk(c) && AddrOk(env, c) && id in c.mapInfo && |c.vRandom| > 0
    requires c.vRandom[|c.vRandom| - 1] == id
    ensures RandomOk(Popped(env, c, id)) && AddrOk(env, Popped(env, c, id))
  {
  }

  lemma PopRefs(env: Env, c: Snap, id: int)
    requires RefsOk(c) && id in c.mapInfo && |c.vRandom| > 0
    requires !c.mapInfo[id].fInTried && c.mapInfo[id].nRefCount == 0
    ensures RefsOk(Popped(env, c, id))
  {
    CountZero(c.newTab, id);
  }

  lemma PopOk(env: Env, c: Snap, id: int, k: int)
    requires Indexed(env, c, k) && id in c.mapInfo && |c.vRandom| > 0
    requires !c.mapInfo[id].fInTried && c.mapInfo[id].nRefCount == 0
    requires c.vRandom[|c.vRandom| - 1] == id
    ensures Indexed(env, Popped(env, c, id), k)
    ensures Entries(Popped(env, c, id).mapInfo) == Entries(c.mapInfo) - {id}
  {
    hide RefsOk, RandomOk, AddrOk, NewIds, TriedIds, Entries, Norm;
    PopAddrs(env, c, id);
    PopRefs(env, c, id);
    CountsRemove(c.mapInfo, id);
    EntriesRemove(c.mapInfo, id);
  }

  lemma CountsRemove(m: map<int, AddrInfo>, id: int)
    requires id in m && !m[id].fInTried
    ensures |NewIds(m - {id})| == |NewIds(m)| - 1 && |TriedIds(m - {id})| == |TriedIds(m)|
  {
    var m' := m - {id};
    assert NewIds(m) == NewIds(m') + {id} && id !in NewIds(m');
    assert TriedIds(m') == TriedIds(m);
  }

  lemma EntriesRemove(m: map<int, AddrInfo>, id: int)
    ensures Entries(m - {id}) == Entries(m) - {id}
  {
  }

  lemma RandomKnown(env: Env, c: Snap, n: int, k: int)
    requires Indexed(env, c, k) && 0 <= n < |c.vRandom|
    ensures c.vRandom[n] in c.mapInfo
    ensures forall i :: 0 <= i < n ==> c.vRandom[i] != c.vRandom[n]
  {
  }

  lemma Located(env: Env, c: Snap, id: int, k: int)
    requires Indexed(env, c, k) && id in c.mapInfo
    ensures 0 <= c.mapInfo[id].nRandomPos < |c.vRandom| && c.vRandom[c.mapInfo[id].nRandomPos] == id
  {
  }

  /** Reference counts and tried marks are determined by the tables. */
  lemma SameTables(env: Env, c: Snap, c': Snap, id: int, k: int)
    requires Indexed(env, c, k) && Indexed(env, c', k) && c.newTab == c'.newTab && c.triedTab == c'.triedTab
    requires id in c.mapInfo && Entries(c.mapInfo) == Entries(c'.mapInfo)
    ensures id in c'.mapInfo && c'.mapInfo[id].entry == c.mapInfo[id].entry
    ensures c'.mapInfo[id].nRefCount == c.mapInfo[id].nRefCount && c'.mapInfo[id].fInTried == c.mapInfo[id].fInTried
  {
    assert id in Entries(c'.mapInfo);
  }

  // ---------- the bucket tables ----------

  ghost function TableView(t: array2<int>): map<Slot, int>
    reads t
  {
    map b: nat, p: nat | b < t.Length0 && p < t.Length1 && t[b, p] != -1 :: Slot(b, p) := t[b, p]
  }

  lemma TableEmpty(t: array2<int>)
    requires forall b, p :: 0 <= b < t.Length0 && 0 <= p < t.Length1 ==> t[b, p] == -1
    ensures TableView(t) == map[]
  {
  }

  method SetSlot(t: array2<int>, s: Slot, id: int)
    requires s.bucket < t.Length0 && s.pos < t.Length1
    modifies t
    ensures TableView(t) == if id == -1 then old(TableView(t)) - {s} else old(TableView(t))[s := id]
  {
    t[s.bucket, s.pos] := id;
  }

  lemma NewSlotBounds(env: Env, service: Service, source: NetAddr)
    ensures var s := NewSlot(env, service, source);
            && s.bucket < NEW_BUCKET_COUNT && s.pos < BUCKET_SIZE
            && s.pos == BucketPosition(env, true, s.bucket, service)
  {
  }

  lemma TriedSlotBounds(env: Env, service: Service)
    ensures TriedSlot(env, service).bucket < TRIED_BUCKET_COUNT && TriedSlot(env, service).pos < BUCKET_SIZE
  {
  }

  /** What is left of the "new" table after `id` was taken out of the first buckets. */
  ghost function Swept(newTab: map<Slot, int>, id: int, below: int): map<Slot, int> {
    map s | s in newTab && !(newTab[s] == id && s.bucket < below) :: newTab[s]
  }

  /** An id holds at most the one slot per bucket that its hash points to. */
  lemma SweepOne(env: Env, b: Book, id: int, bucket: nat)
    requires Inv(env, b, {}) && id in b.entries
    ensures var s := Slot(bucket, BucketPosition(env, true, bucket, b.entries[id].service));
            var t := Swept(b.newTab, id, bucket);
            Swept(b.newTab, id, bucket + 1) == if s in t && t[s] == id then t - {s} else t
  {
    hide Inv;
    var s := Slot(bucket, BucketPosition(env, true, bucket, b.entries[id].service));
    forall x | x in b.newTab && b.newTab[x] == id && x.bucket == bucket ensures x == s {
      SlotOfId(env, b, x);
    }
  }

  lemma SweepAll(env: Env, b: Book, id: int)
    requires Inv(env, b, {})
    ensures Swept(b.newTab, id, 0) == b.newTab
    ensures Swept(b.newTab, id, NEW_BUCKET_COUNT) == Strip(b, id).newTab
  {
  }

  lemma IncumbentFacts(env: Env, b: Book, ts: Slot, id: int)
    requires Inv(env, b, {}) && ts in b.triedTab && id !in b.triedTab.Values
    ensures b.triedTab[ts] in b.entries && b.triedTab[ts] !in b.newTab.Values && b.triedTab[ts] != id
    ensures forall t :: t in b.triedTab && b.triedTab[t] == b.triedTab[ts] ==> t == ts
  {
  }

  lemma TableAt(t: array2<int>, s: Slot)
    ensures s in TableView(t) <==> s.bucket < t.Length0 && s.pos < t.Length1 && t[s.bucket, s.pos] != -1
    ensures s in TableView(t) ==> TableView(t)[s] == t[s.bucket, s.pos]
  {
  }

  lemma UnrefTried(b: Book, s: Slot, triedTab: map<Slot, int>)
    ensures Unref(b.(triedTab := triedTab), s) == Unref(b, s).(triedTab := triedTab)
  {
  }

  ghost function Displaced(env: Env, b: Book, ts: Slot): Book
    requires ts in b.triedTab && b.triedTab[ts] in b.entries
  {
    var evicted := b.triedTab[ts];
    var ns := NewSlot(env, b.entries[evicted].service, b.entries[evicted].source);
    var b2 := Unref(b, ns);
    b2.(newTab := b2.newTab[ns := evicted], triedTab := b.triedTab - {ts})
  }

  lemma PromoteBySteps(env: Env, b: Book, id: int)
    requires Inv(env, b, {}) && id in b.entries && id !in b.triedTab.Values
    ensures var b1 := Strip(b, id);
            var ts := TriedSlot(env, b.entries[id].service);
            && b1.triedTab == b.triedTab && b1.entries == b.entries && id !in b1.newTab.Values
            && (ts !in b.triedTab ==> Promote(env, b, id) == b1.(triedTab := b1.triedTab[ts := id]))
            && (ts in b.triedTab ==>
                  && b1.triedTab[ts] in b1.entries && b1.triedTab[ts] !in b1.newTab.Values
                  && (forall t :: t in b1.triedTab && b1.triedTab[t] == b1.triedTab[ts] ==> t == ts)
                  && var b2 := Displaced(env, b1, ts);
                  && ts !in b2.triedTab && id in b2.entries && b2.entries[id] == b.entries[id]
                  && id !in b2.newTab.Values && id !in b2.triedTab.Values
                  && Promote(env, b, id) == b2.(triedTab := b2.triedTab[ts := id]))
  {
    hide Inv, Unref, NewSlot, TriedSlot;
    var b1 := Strip(b, id);
    var ts := TriedSlot(env, b.entries[id].service);
    if ts in b.triedTab {
      IncumbentFacts(env, b, ts, id);
      var e := b.entries[b.triedTab[ts]];
      UnrefFrame(b1, NewSlot(env, e.service, e.source));
      assert (b.triedTab - {ts})[ts := id] == b.triedTab[ts := id];
    }
  }

  lemma HolderKnown(env: Env, c: Snap, s: Slot, k: int)
    requires Indexed(env, c, k) && s in c.newTab
    ensures c.newTab[s] in c.mapInfo
  {
  }

  lemma UnrefOther(b: Book, s: Slot, id: int)
    requires id in b.entries && (s in b.newTab ==> b.newTab[s] != id)
    ensures var b' := Unref(b, s);
            && s !in b'.newTab && id in b'.entries && b'.entries[id] == b.entries[id]
            && b'.triedTab == b.triedTab
  {
  }

  lemma NextIdFree(env: Env, b: Book, c: Snap, service: Service)
    requires Inv(env, b, {}) && Indexed(env, c, 0) && b.entries == Entries(c.mapInfo)
    requires forall id :: id in b.entries ==> Norm(env, b.entries[id].service) != Norm(env, service)
    ensures 0 <= b.nextId && b.nextId !in c.mapInfo && Norm(env, service) !in c.mapAddr
  {
    forall id | id in c.mapInfo
      ensures id < b.nextId && Norm(env, c.mapInfo[id].entry.service) != Norm(env, service)
    {
      assert id in b.entries && b.entries[id] == c.mapInfo[id].entry;
    }
  }

  /** Each reference already held halves the chance of another. */
  method StochasticTest(nRefCount: nat, draw: nat) returns (ok: bool)
    ensures ok <==> draw % Pow2(nRefCount) == 0
  {
    var nFactor := 1;
    for n := 0 to nRefCount
      invariant nFactor == Pow2(n)
    {
      nFactor := nFactor * 2;
    }
    ok := !(nFactor > 1 && draw % nFactor != 0);
  }

  method RefreshEntry(entry: Entry, addr: Address, penalty: int, now: int) returns (e: Entry)
    ensures e == Refreshed(entry, addr, penalty, now) && e.service == entry.service
  {
    e := entry;
    var fCurrentlyOnline := now - addr.nTime < 24 * 60 * 60;
    var nUpdateInterval := if fCurrentlyOnline then 60 * 60 else 24 * 60 * 60;
    if addr.nTime != 0 && (e.nTime == 0 || e.nTime < addr.nTime - nUpdateInterval - penalty) {
      e := e.(nTime := AtLeastZero(addr.nTime - penalty));
    }
    e := e.(nServices := e.nServices + addr.nServices);
  }

  lemma SlotOfId(env: Env, b: Book, s: Slot)
    requires Inv(env, b, {}) && s in b.newTab
    ensures s.bucket < NEW_BUCKET_COUNT && b.newTab[s] in b.entries
    ensures s.pos == BucketPosition(env, true, s.bucket, b.entries[b.newTab[s]].service)
  {
  }

  lemma ContestedSlot(env: Env, b: Book, id: int)
    requires Inv(env, b, {}) && id in b.collisions && id in b.entries
    ensures var ts := TriedSlot(env, b.entries[id].service); ts in b.triedTab && b.triedTab[ts] in b.entries
  {
  }

  lemma CollisionsLeft(env: Env, b: Book, id: int, clock: Clock)
    requires Inv(env, b, {})
    ensures ResolveOne(env, b, id, clock).collisions >= b.collisions - {id}
  {
    hide Inv, Good, TriedSlot;
    if id in b.entries {
      GoodKeeps(env, b, b.entries[id].service, false, clock(id, 3));
      GoodKeeps(env, b, b.entries[id].service, false, clock(id, 5));
    }
  }

  lemma ResolveNext(env: Env, b: Book, ids: set<int>, id: int, clock: Clock)
    requires id in ids && forall i :: i in ids ==> id <= i
    ensures ResolveAll(env, b, ids, clock) == ResolveAll(env, ResolveOne(env, b, id, clock), ids - {id}, clock)
  {
    hide ResolveOne;
    assert Least(ids) == id;
  }

  lemma ResolveNone(env: Env, b: Book, clock: Clock)
    ensures ResolveAll(env, b, {}, clock) == b
  {
  }

  /** The size of the random order is the sum of the two counters. */
  lemma SizesAgree(env: Env, c: Snap)
    requires Indexed(env, c, 0)
    ensures |c.vRandom| == c.nNew + c.nTried == |c.mapInfo|
  {
    hide RandomOk, AddrOk, RefsOk;
    assert c.mapInfo.Keys == NewIds(c.mapInfo) + TriedIds(c.mapInfo);
    assert NewIds(c.mapInfo) !! TriedIds(c.mapInfo);
    RandomSize(c);
  }

  lemma EveryIdListed(env: Env, c: Snap)
    requires Indexed(env, c, 0)
    ensures forall id :: id in Entries(c.mapInfo) ==> id in c.vRandom
  {
    hide Indexed;
    forall id | id in Entries(c.mapInfo)
      ensures id in c.vRandom
    {
      Located(env, c, id, 0);
    }
  }

  lemma RandomSize(c: Snap)
    requires RandomOk(c)
    ensures |c.vRandom| == |c.mapInfo|
  {
    DistinctSize(c.vRandom);
    forall id | id in c.mapInfo ensures id in c.vRandom {
      assert c.vRandom[c.mapInfo[id].nRandomPos] == id;
    }
    assert (set x | x in c.vRandom) == c.mapInfo.Keys;
  }

  lemma {:induction false} DistinctSize(v: seq<int>)
    requires forall i, j :: 0 <= i < j < |v| ==> v[i] != v[j]
    ensures |set x | x in v| == |v|
  {
    if v == [] {
      assert (set x | x in v) == {};
    } else {
      var n := |v| - 1;
      DistinctSize(v[..n]);
      assert (set x | x in v) == (set x | x in v[..n]) + {v[n]} by {
        assert v == v[..n] + [v[n]];
      }
    }
  }

  function AddressOf(e: Entry): Address {
    Address(e.service, e.nTime, e.nServices)
  }

  /** How many addresses one getaddr answer may hold. */
  function AnswerLimit(size: nat): nat {
    var n := GETADDR_MAX_PCT * size / 100;
    if n > GETADDR_MAX then GETADDR_MAX else n
  }

  function RandRange(draw: nat, n: nat): (r: nat)
    requires n > 0
    ensures r < n
  {
    draw % n
  }

  lemma EntriesSize(m: map<int, AddrInfo>)
    ensures |Entries(m)| == |m|
  {
    assert Entries(m).Keys == m.Keys;
  }

  /** `ids` are the entries worth passing on among those picked so far. */
  ghost predicate Sampled(b: Book, clock: IdClock, picked: seq<int>, ids: seq<int>, vAddr: seq<Address>) {
    && |vAddr| == |ids|
    && (forall i, j :: 0 <= i < j < |ids| ==> ids[i] != ids[j])
    && (forall i :: 0 <= i < |ids| ==>
          && ids[i] in b.entries && !IsTerrible(b.entries[ids[i]], clock(ids[i]))
          && vAddr[i] == AddressOf(b.entries[ids[i]]))
    && (forall id :: id in ids ==> id in picked)
    && (forall id :: id in picked ==> id in b.entries && (!IsTerrible(b.entries[id], clock(id)) ==> id in ids))
  }

  lemma SampleNone(b: Book, clock: IdClock)
    ensures Sampled(b, clock, [], [], [])
  {
  }

  lemma SampleMore(b: Book, clock: IdClock, picked: seq<int>, ids: seq<int>, vAddr: seq<Address>, id: int)
    requires Sampled(b, clock, picked, ids, vAddr) && id in b.entries && id !in picked
    ensures var e := b.entries[id];
            if IsTerrible(e, clock(id)) then Sampled(b, clock, picked + [id], ids, vAddr)
            else Sampled(b, clock, picked + [id], ids + [id], vAddr + [AddressOf(e)])
  {
    hide IsTerrible;
    assert forall x :: x in picked + [id] <==> x in picked || x == id;
    assert forall x :: x in ids + [id] <==> x in ids || x == id;
    assert id !in ids;
  }

  lemma SampleFacts(b: Book, clock: IdClock, picked: seq<int>, ids: seq<int>, vAddr: seq<Address>)
    requires Sampled(b, clock, picked, ids, vAddr)
    ensures forall i, j :: 0 <= i < j < |ids| ==> ids[i] != ids[j]
    ensures forall i :: 0 <= i < |ids| ==>
              && ids[i] in b.entries && !IsTerrible(b.entries[ids[i]], clock(ids[i]))
              && vAddr[i] == AddressOf(b.entries[ids[i]])
    ensures forall id :: id in picked && id in b.entries && !IsTerrible(b.entries[id], clock(id)) ==> id in ids
  {
  }

  /** The k-th smallest member of a set, walking from the smallest on. */
  method Advance(ids: set<int>, k: nat) returns (r: int)
    requires k < |ids|
    ensures r == Kth(ids, k)
  {
    var rest := ids;
    var n := k;
    while true
      invariant 0 <= n < |rest| && Kth(rest, n) == Kth(ids, k)
      decreases n
    {
      ghost var least := LeastOf(rest);
      r :| r in rest && forall id :: id in rest ==> r <= id;
      if n == 0 {
        return;
      }
      rest := rest - {r};
      n := n - 1;
    }
  }

  lemma HoldsSlot(env: Env, b: Book, id: int)
    requires Inv(env, b, {}) && id in b.entries && id !in b.triedTab.Values
    ensures id in b.newTab.Values
  {
  }

  lemma NewIdUntried(env: Env, b: Book, id: int)
    requires Inv(env, b, {}) && id == b.nextId
    ensures id !in b.triedTab.Values
  {
  }

  lemma EntriesUpdate(m: map<int, AddrInfo>, id: int, info: AddrInfo)
    ensures Entries(m[id := info]) == Entries(m)[id := info.entry]
  {
  }

  lemma EntriesAt(m: map<int, AddrInfo>, id: int)
    ensures id in Entries(m) <==> id in m
    ensures id in m ==> Entries(m)[id] == m[id].entry
  {
  }

  lemma EmptyOk(env: Env)
    ensures Indexed(env, Snap(map[], map[], [], map[], map[], 0, 0), 0) && Inv(env, EMPTY, {})
    ensures Entries(map[]) == map[]
  {
    assert NewIds(map[]) == {} && TriedIds(map[]) == {};
  }

  class AddrMan {
    const env: Env
    var nIdCount: int
    var mapInfo: map<int, AddrInfo>
    var mapAddr: map<Service, int>
    var vRandom: seq<int>
    var nTried: int
    const vvTried: array2<int>
    var nNew: int
    const vvNew: array2<int>
    var nLastGood: int
    var triedCollisions: set<int>

    ghost predicate Shape() {
      && vvNew.Length0 == NEW_BUCKET_COUNT && vvNew.Length1 == BUCKET_SIZE
      && vvTried.Length0 == TRIED_BUCKET_COUNT && vvTried.Length1 == BUCKET_SIZE
      && vvNew != vvTried
    }

    ghost function Fields(): Snap
      reads this, vvNew, vvTried
    {
      Snap(mapInfo, mapAddr, vRandom, TableView(vvNew), TableView(vvTried), nNew, nTried)
    }

    ghost function View(): Book
      reads this, vvNew, vvTried
    {
      Book(Entries(mapInfo), TableView(vvNew), TableView(vvTried), nIdCount, triedCollisions, nLastGood)
    }

    ghost predicate Indexes(uncounted: int)
      reads this, vvNew, vvTried
    {
      Shape() && Indexed(env, Fields(), uncounted)
    }

    /** Every index agrees with the book, and the book is in order. */
    ghost predicate Valid()
      reads this, vvNew, vvTried
    {
      Indexes(0) && Inv(env, View(), {})
    }

    constructor (env: Env)
      ensures Valid() && View() == EMPTY && this.env == env
      ensures fresh(vvNew) && fresh(vvTried)
    {
      this.env := env;
      nIdCount, mapInfo, mapAddr, vRandom := 0, map[], map[], [];
      nTried, nNew, nLastGood, triedCollisions := 0, 0, 1, {};
      vvTried := new int[TRIED_BUCKET_COUNT, BUCKET_SIZE]((_, _) => -1);
      vvNew := new int[NEW_BUCKET_COUNT, BUCKET_SIZE]((_, _) => -1);
      new;
      hide Indexed, Inv, TableView, Entries;
      TableEmpty(vvNew);
      TableEmpty(vvTried);
      EmptyOk(env);
    }

    method Find(addr: Service) returns (r: Option<int>)
      requires Indexes(0)
      ensures r == FindId(env, View().entries, addr)
    {
      var addr2 := Norm(env, addr);
      if addr2 !in mapAddr {
        return None;
      }
      assert mapAddr[addr2] in View().entries;
      r := Some(mapAddr[addr2]);
    }

    method Create(addr: Address, source: NetAddr) returns (nId: int)
      requires Indexes(0) && nIdCount !in mapInfo && 0 <= nIdCount
      requires Norm(env, addr.service) !in mapAddr
      modifies this`nIdCount, this`mapInfo, this`mapAddr, this`vRandom
      ensures nId == old(nIdCount) && Indexes(1)
      ensures View() == old(View()).(entries := old(View()).entries[nId := FirstSeen(addr, source, 0)],
                                     nextId := nId + 1)
    {
      hide Indexed, Norm, TableView, Entries;
      nId := nIdCount;
      CreateOk(env, Fields(), nId, FirstSeen(addr, source, 0), 0);
      EntriesUpdate(mapInfo, nId, AddrInfo(FirstSeen(addr, source, 0), 0, false, |vRandom|));
      ghost var before := Fields();
      nIdCount := nIdCount + 1;
      mapInfo := mapInfo[nId := AddrInfo(FirstSeen(addr, source, 0), 0, false, |vRandom|)];
      mapAddr := mapAddr[Norm(env, addr.service) := nId];
      vRandom := vRandom + [nId];
      assert Fields() == Created(env, before, nId, FirstSeen(addr, source, 0));
    }

    method SwapRandom(nRndPos1: nat, nRndPos2: nat, ghost k: int)
      requires Indexes(k)
      requires nRndPos1 == nRndPos2 || (nRndPos1 < |vRandom| && nRndPos2 < |vRandom|)
      modifies this`mapInfo, this`vRandom
      ensures Indexes(k) && View() == old(View())
      ensures vRandom == if nRndPos1 == nRndPos2 then old(vRandom)
                         else old(vRandom)[nRndPos1 := old(vRandom)[nRndPos2]][nRndPos2 := old(vRandom)[nRndPos1]]
    {
      hide Indexed, TableView, Entries;
      if nRndPos1 == nRndPos2 {
        return;
      }
      SwapOk(env, Fields(), nRndPos1, nRndPos2, k);
      ghost var before := Fields();
      var nId1, nId2 := vRandom[nRndPos1], vRandom[nRndPos2];
      mapInfo := mapInfo[nId1 := mapInfo[nId1].(nRandomPos := nRndPos2)];
      mapInfo := mapInfo[nId2 := mapInfo[nId2].(nRandomPos := nRndPos1)];
      vRandom := vRandom[nRndPos1 := nId2];
      vRandom := vRandom[nRndPos2 := nId1];
      assert Fields() == Swapped(before, nRndPos1, nRndPos2);
    }

    method Delete(nId: int, ghost k: int)
      requires Indexes(k) && nId in mapInfo && !mapInfo[nId].fInTried && mapInfo[nId].nRefCount == 0
      modifies this`mapInfo, this`mapAddr, this`vRandom, this`nNew
      ensures Indexes(k) && View() == old(View()).(entries := old(View()).entries - {nId})
    {
      hide Indexed, Norm, TableView, Entries;
      Located(env, Fields(), nId, k);
      var addr := Norm(env, mapInfo[nId].entry.service);
      SwapRandom(mapInfo[nId].nRandomPos, |vRandom| - 1, k);
      SameTables(env, old(Fields()), Fields(), nId, k);
      PopOk(env, Fields(), nId, k);
      ghost var before := Fields();
      vRandom := vRandom[..|vRandom| - 1];
      mapAddr := mapAddr - {addr};
      mapInfo := mapInfo - {nId};
      nNew := nNew - 1;
      assert Fields() == Popped(env, before, nId);
    }

    method ClearNew(s: Slot, ghost k: int)
      requires Indexes(k) && s.bucket < NEW_BUCKET_COUNT && s.pos < BUCKET_SIZE
      modifies this`mapInfo, this`mapAddr, this`vRandom, this`nNew, vvNew
      ensures Indexes(k) && View() == Unref(old(View()), s)
    {
      hide Indexed, RefCount;
      if vvNew[s.bucket, s.pos] != -1 {
        assert s in TableView(vvNew);
        var nIdDelete := vvNew[s.bucket, s.pos];
        RefLoseOk(env, Fields(), s, k);
        ghost var before := Fields();
        mapInfo := mapInfo[nIdDelete := mapInfo[nIdDelete].(nRefCount := mapInfo[nIdDelete].nRefCount - 1)];
        SetSlot(vvNew, s, -1);
        assert Fields() == RefLost(before, s);
        CountZero(TableView(vvNew), nIdDelete);
        LastRef(env, Fields(), nIdDelete, k);
        if mapInfo[nIdDelete].nRefCount == 0 {
          Delete(nIdDelete, k);
        }
      }
    }

    /** Take the holder of a tried slot out of the tried set. */
    method Untry(ts: Slot, ghost k: int)
      requires Indexes(k) && ts in TableView(vvTried)
      requires forall t :: t in TableView(vvTried) && TableView(vvTried)[t] == TableView(vvTried)[ts] ==> t == ts
      modifies this`mapInfo, this`nTried, vvTried
      ensures Indexes(k + 1) && View() == old(View()).(triedTab := old(View()).triedTab - {ts})
    {
      hide Indexed, TableView, Entries;
      TableAt(vvTried, ts);
      TriedLoseOk(env, Fields(), ts, k);
      ghost var c := Fields();
      var nIdEvict := vvTried[ts.bucket, ts.pos];
      mapInfo := mapInfo[nIdEvict := mapInfo[nIdEvict].(fInTried := false)];
      SetSlot(vvTried, ts, -1);
      nTried := nTried - 1;
      assert Fields() == TriedLost(c, ts);
    }

    /** Enter an id that holds no slot into a free "new" slot. */
    method EnterNew(s: Slot, nId: int, ghost k: int)
      requires Indexes(k) && s !in TableView(vvNew) && s.bucket < NEW_BUCKET_COUNT && s.pos < BUCKET_SIZE
      requires nId in mapInfo && nId !in TableView(vvNew).Values && nId !in TableView(vvTried).Values
      modifies this`mapInfo, this`nNew, vvNew
      ensures Indexes(k - 1) && View() == old(View()).(newTab := old(View()).newTab[s := nId])
    {
      hide Indexed, TableView, Entries;
      LastRef(env, Fields(), nId, k);
      RefGainOk(env, Fields(), s, nId, k);
      ghost var c := Fields();
      mapInfo := mapInfo[nId := mapInfo[nId].(nRefCount := 1)];
      SetSlot(vvNew, s, nId);
      assert Fields() == RefGained(c, s, nId);
      RecountOk(env, Fields(), 1, k);
      nNew := nNew + 1;
    }

    method EnterTried(ts: Slot, nId: int, ghost k: int)
      requires Indexes(k) && ts !in TableView(vvTried) && ts.bucket < TRIED_BUCKET_COUNT && ts.pos < BUCKET_SIZE
      requires nId in mapInfo && nId !in TableView(vvNew).Values && nId !in TableView(vvTried).Values
      modifies this`mapInfo, this`nTried, vvTried
      ensures Indexes(k - 1) && View() == old(View()).(triedTab := old(View()).triedTab[ts := nId])
    {
      hide Indexed, TableView, Entries;
      LastRef(env, Fields(), nId, k);
      TriedGainOk(env, Fields(), ts, nId, k);
      ghost var c := Fields();
      SetSlot(vvTried, ts, nId);
      nTried := nTried + 1;
      mapInfo := mapInfo[nId := mapInfo[nId].(fInTried := true)];
      assert Fields() == TriedGained(c, ts, nId);
    }

    /** Remove an id from all "new" buckets. */
    method LeaveNew(nId: int)
      requires Valid() && nId in mapInfo
      modifies this`mapInfo, this`nNew, vvNew
      ensures Indexes(1) && View() == Strip(old(View()), nId)
    {
      hide Indexed, Inv, TableView, RefCount, Norm;
      ghost var b0 := View();
      EntriesAt(mapInfo, nId);
      LastRef(env, Fields(), nId, 0);
      SweepAll(env, b0, nId);
      for bucket := 0 to NEW_BUCKET_COUNT
        invariant Indexes(0) && nId in mapInfo
        invariant View() == b0.(newTab := Swept(b0.newTab, nId, bucket))
        invariant mapInfo[nId].entry == b0.entries[nId]
        modifies this`mapInfo, vvNew
      {
        hide Swept, Entries;
        var s := Slot(bucket, BucketPosition(env, true, bucket, mapInfo[nId].entry.service));
        SweepOne(env, b0, nId, bucket);
        TableAt(vvNew, s);
        if vvNew[s.bucket, s.pos] == nId {
          RefLoseOk(env, Fields(), s, 0);
          ghost var c := Fields();
          SetSlot(vvNew, s, -1);
          mapInfo := mapInfo[nId := mapInfo[nId].(nRefCount := mapInfo[nId].nRefCount - 1)];
          assert Fields() == RefLost(c, s);
        }
      }
      RecountOk(env, Fields(), -1, 0);
      nNew := nNew - 1;
    }

    /** Send the holder of a tried slot back to its "new" slot. */
    method Displace(ts: Slot)
      requires Indexes(1) && ts in TableView(vvTried) && TableView(vvTried)[ts] in Entries(mapInfo)
      requires TableView(vvTried)[ts] !in TableView(vvNew).Values
      requires forall t :: t in TableView(vvTried) && TableView(vvTried)[t] == TableView(vvTried)[ts] ==> t == ts
      modifies this`mapInfo, this`mapAddr, this`vRandom, this`nNew, this`nTried, vvNew, vvTried
      ensures Indexes(1) && View() == Displaced(env, old(View()), ts)
    {
      hide Indexed, TableView, Unref, NewSlot, Entries;
      ghost var b1 := View();
      TableAt(vvTried, ts);
      var nIdEvict := vvTried[ts.bucket, ts.pos];
      Untry(ts, 1);
      EntriesAt(mapInfo, nIdEvict);
      var infoOld := mapInfo[nIdEvict].entry;
      var ns := NewSlot(env, infoOld.service, infoOld.source);
      NewSlotBounds(env, infoOld.service, infoOld.source);
      ghost var b2 := View();
      ClearNew(ns, 2);
      UnrefFrame(b2, ns);
      UnrefTried(b1, ns, b2.triedTab);
      EntriesAt(mapInfo, nIdEvict);
      EnterNew(ns, nIdEvict, 2);
    }

    method MakeTried(nId: int)
      requires Valid() && nId in mapInfo && !mapInfo[nId].fInTried
      modifies this`mapInfo, this`mapAddr, this`vRandom, this`nNew, this`nTried, vvNew, vvTried
      ensures Indexes(0) && View() == Promote(env, old(View()), nId)
    {
      hide Indexed, Inv, TableView, Promote, Strip, Displaced, TriedSlot, Entries;
      ghost var b0 := View();
      EntriesAt(mapInfo, nId);
      LastRef(env, Fields(), nId, 0);
      PromoteBySteps(env, b0, nId);
      LeaveNew(nId);
      EntriesAt(mapInfo, nId);
      var service := mapInfo[nId].entry.service;
      var ts := TriedSlot(env, service);
      TriedSlotBounds(env, service);
      TableAt(vvTried, ts);
      if vvTried[ts.bucket, ts.pos] != -1 {
        Displace(ts);
      }
      EntriesAt(mapInfo, nId);
      EnterTried(ts, nId, 1);
    }

    method Restat(nId: int, e: Entry)
      requires Indexes(0) && nId in mapInfo && e.service == mapInfo[nId].entry.service
      modifies this`mapInfo
      ensures Indexes(0) && View() == old(View()).(entries := old(View()).entries[nId := e])
      ensures nId in mapInfo && mapInfo[nId] == old(mapInfo)[nId].(entry := e)
    {
      hide Indexed, TableView;
      RestatOk(env, Fields(), nId, e, 0);
      ghost var c := Fields();
      mapInfo := mapInfo[nId := mapInfo[nId].(entry := e)];
      assert Fields() == c.(mapInfo := c.mapInfo[nId := c.mapInfo[nId].(entry := e)]);
    }

    /** Some bucket the id is in, looking from a random one on; -1 if none. */
    method FindBucket(nId: int, nRnd: nat) returns (nUBucket: int)
      requires Valid() && nId in mapInfo
      ensures nUBucket == -1 <==> nId !in TableView(vvNew).Values
      ensures nUBucket != -1 ==>
                && 0 <= nUBucket < NEW_BUCKET_COUNT
                && vvNew[nUBucket, BucketPosition(env, true, nUBucket, mapInfo[nId].entry.service)] == nId
    {
      hide Indexed, Inv, TableView, Entries;
      ghost var b := View();
      EntriesAt(mapInfo, nId);
      LastRef(env, Fields(), nId, 0);
      var service := mapInfo[nId].entry.service;
      for n := 0 to NEW_BUCKET_COUNT
        invariant forall nB :: 0 <= nB < NEW_BUCKET_COUNT && (nB - nRnd) % NEW_BUCKET_COUNT < n ==>
          vvNew[nB, BucketPosition(env, true, nB, service)] != nId
      {
        var nB := (n + nRnd) % NEW_BUCKET_COUNT;
        var nBpos := BucketPosition(env, true, nB, service);
        if vvNew[nB, nBpos] == nId {
          TableAt(vvNew, Slot(nB, nBpos));
          assert b.newTab[Slot(nB, nBpos)] == nId;
          return nB;
        }
      }
      forall s | s in b.newTab ensures b.newTab[s] != nId {
        TableAt(vvNew, s);
        SlotOfId(env, b, s);
      }
      return -1;
    }

    method Good_(addr: Service, testBeforeEvict: bool, nTime: int, nRnd: nat)
      requires Valid()
      modifies this, vvNew, vvTried
      ensures Valid() && View() == Good(env, old(View()), addr, testBeforeEvict, nTime)
    {
      hide Indexed, Inv, TableView, Entries, FindId, Promote, TriedSlot, RefCount, Norm, Evolves;
      ghost var b := View();
      GoodKeeps(env, b, addr, testBeforeEvict, nTime);
      nLastGood := nTime;
      var found := Find(addr);
      if found.None? {
        return;
      }
      var nId := found.value;
      EntriesAt(mapInfo, nId);
      if mapInfo[nId].entry.service != addr {
        return;
      }
      LastRef(env, Fields(), nId, 0);
      LastGoodKeeps(env, b, nTime);
      var e := mapInfo[nId].entry.(nLastSuccess := nTime, nLastTry := nTime, nAttempts := 0);
      RestatKeeps(env, View(), nId, e, {});
      Restat(nId, e);
      if mapInfo[nId].fInTried {
        return;
      }
      var nUBucket := FindBucket(nId, nRnd);
      HoldsSlot(env, View(), nId);
      assert nUBucket != -1;

      var ts := TriedSlot(env, addr);
      TriedSlotBounds(env, addr);
      TableAt(vvTried, ts);
      if testBeforeEvict && vvTried[ts.bucket, ts.pos] != -1 {
        if |triedCollisions| < TRIED_COLLISION_SIZE {
          triedCollisions := triedCollisions + {nId};
        }
      } else {
        MakeTried(nId);
      }
    }

    /** The last part of Add_: find the "new" slot for this source and take it
        if it is free or its holder may be overwritten. */
    method PlaceInNew(nId: int, source: NetAddr, now: int)
      requires Indexes(0) && nId in mapInfo && !mapInfo[nId].fInTried
      modifies this`mapInfo, this`mapAddr, this`vRandom, this`nNew, vvNew
      ensures Indexes(0) && View() == Place(env, old(View()), nId, source, now)
    {
      hide Indexed, TableView, Entries, Unref, NewSlot, RefCount, IsTerrible, Norm;
      ghost var b := View();
      EntriesAt(mapInfo, nId);
      LastRef(env, Fields(), nId, 0);
      var s := NewSlot(env, mapInfo[nId].entry.service, source);
      NewSlotBounds(env, mapInfo[nId].entry.service, source);
      TableAt(vvNew, s);
      if vvNew[s.bucket, s.pos] != nId {
        var fInsert := vvNew[s.bucket, s.pos] == -1;
        if !fInsert {
          HolderKnown(env, Fields(), s, 0);
          var existing := mapInfo[vvNew[s.bucket, s.pos]];
          EntriesAt(mapInfo, vvNew[s.bucket, s.pos]);
          LastRef(env, Fields(), vvNew[s.bucket, s.pos], 0);
          if IsTerrible(existing.entry, now) || (existing.nRefCount > 1 && mapInfo[nId].nRefCount == 0) {
            fInsert := true;
          }
        }
        assert fInsert <==> MayTake(b, s, nId, now);
        if fInsert {
          ClearNew(s, 0);
          UnrefOther(b, s, nId);
          EntriesAt(mapInfo, nId);
          LastRef(env, Fields(), nId, 0);
          RefGainOk(env, Fields(), s, nId, 0);
          ghost var c := Fields();
          mapInfo := mapInfo[nId := mapInfo[nId].(nRefCount := mapInfo[nId].nRefCount + 1)];
          SetSlot(vvNew, s, nId);
          assert Fields() == RefGained(c, s, nId);
        } else if mapInfo[nId].nRefCount == 0 {
          Delete(nId, 0);
        }
      }
    }

    /** A repeated announcement of a known address: refresh the entry, then
        decide whether it deserves another "new" slot. */
    method Refresh(nId: int, addr: Address, penalty: int, now: int, draw: nat) returns (place: bool)
      requires Indexes(0) && nId in mapInfo
      modifies this`mapInfo
      ensures Indexes(0)
      ensures var b := old(View());
              var e := Refreshed(b.entries[nId], addr, penalty, now);
              && View() == b.(entries := b.entries[nId := e])
              && (place <==>
                    && addr.nTime != 0 && (e.nTime == 0 || addr.nTime > e.nTime)
                    && nId !in b.triedTab.Values
                    && RefCount(b.newTab, nId) != NEW_BUCKETS_PER_ADDRESS
                    && draw % Pow2(RefCount(b.newTab, nId)) == 0)
    {
      hide Indexed, TableView, Entries, RefCount, Norm, Refreshed, Pow2;
      EntriesAt(mapInfo, nId);
      LastRef(env, Fields(), nId, 0);
      var e := RefreshEntry(mapInfo[nId].entry, addr, penalty, now);
      Restat(nId, e);
      if addr.nTime == 0 || (e.nTime != 0 && addr.nTime <= e.nTime) {
        return false;
      }
      if mapInfo[nId].fInTried {
        return false;
      }
      if mapInfo[nId].nRefCount == NEW_BUCKETS_PER_ADDRESS {
        return false;
      }
      place := StochasticTest(mapInfo[nId].nRefCount, draw);
    }

    /** The first announcement of an address. */
    method AddFirst(addr: Address, source: NetAddr, penalty: int) returns (nId: int)
      requires Valid() && forall id :: id in View().entries ==>
                 Norm(env, View().entries[id].service) != Norm(env, addr.service)
      modifies this`nIdCount, this`mapInfo, this`mapAddr, this`vRandom, this`nNew
      ensures Indexes(0) && nId in mapInfo && !mapInfo[nId].fInTried && nId == old(nIdCount)
      ensures View() == old(View()).(entries := old(View()).entries[nId := FirstSeen(addr, source, penalty)],
                                     nextId := nId + 1)
    {
      hide Indexed, Inv, TableView, Entries, Norm;
      ghost var b := View();
      NextIdFree(env, b, Fields(), addr.service);
      nId := Create(addr, source);
      EntriesAt(mapInfo, nId);
      LastRef(env, Fields(), nId, 1);
      NewIdUntried(env, b, nId);
      var e := mapInfo[nId].entry;
      e := e.(nTime := AtLeastZero(e.nTime - penalty));
      RestatOk(env, Fields(), nId, e, 1);
      EntriesUpdate(mapInfo, nId, mapInfo[nId].(entry := e));
      mapInfo := mapInfo[nId := mapInfo[nId].(entry := e)];
      RecountOk(env, Fields(), 1, 1);
      nNew := nNew + 1;
    }

    method Add_(addr: Address, source: NetAddr, nTimePenalty: int, now: int, later: int, draw: nat)
      returns (fNew: bool)
      requires Valid()
      modifies this`nIdCount, this`mapInfo, this`mapAddr, this`vRandom, this`nNew, vvNew
      ensures Valid() && (View(), fNew) == Add(env, old(View()), addr, source, nTimePenalty, now, later, draw)
    {
      hide Indexed, Inv, TableView, Entries, FindId, Place, RefCount, Norm, Refreshed;
      AddKeeps(env, View(), addr, source, nTimePenalty, now, later, draw);
      if !env.isRoutable(addr.service.ip) {
        return false;
      }
      var penalty := if addr.service.ip == source then 0 else nTimePenalty;
      var nId: int;
      var found := Find(addr.service);
      if found.Some? {
        nId := found.value;
        EntriesAt(mapInfo, nId);
        var place := Refresh(nId, addr, penalty, now, draw);
        if !place {
          return false;
        }
        EntriesAt(mapInfo, nId);
        LastRef(env, Fields(), nId, 0);
        fNew := false;
      } else {
        nId := AddFirst(addr, source, penalty);
        fNew := true;
      }
      PlaceInNew(nId, source, later);
    }

    method Attempt_(addr: Service, fCountFailure: bool, nTime: int)
      requires Valid()
      modifies this`mapInfo
      ensures Valid() && View() == Step(env, old(View()), OpAttempt(addr, fCountFailure, nTime))
    {
      hide Indexed, Inv, TableView, Entries, FindId;
      StepKeeps(env, View(), OpAttempt(addr, fCountFailure, nTime));
      var found := Find(addr);
      if found.None? {
        return;
      }
      var nId := found.value;
      EntriesAt(mapInfo, nId);
      if mapInfo[nId].entry.service != addr {
        return;
      }
      var e := mapInfo[nId].entry.(nLastTry := nTime);
      if fCountFailure && e.nLastCountAttempt < nLastGood {
        e := e.(nLastCountAttempt := nTime, nAttempts := e.nAttempts + 1);
      }
      Restat(nId, e);
    }

    method Connected_(addr: Service, nTime: nat)
      requires Valid()
      modifies this`mapInfo
      ensures Valid() && View() == Step(env, old(View()), OpConnected(addr, nTime))
    {
      hide Indexed, Inv, TableView, Entries, FindId;
      StepKeeps(env, View(), OpConnected(addr, nTime));
      var found := Find(addr);
      if found.None? {
        return;
      }
      var nId := found.value;
      EntriesAt(mapInfo, nId);
      if mapInfo[nId].entry.service != addr {
        return;
      }
      var nUpdateInterval := 20 * 60;
      if nTime - mapInfo[nId].entry.nTime > nUpdateInterval {
        Restat(nId, mapInfo[nId].entry.(nTime := nTime));
      }
    }

    method SetServices_(addr: Service, nServices: ServiceFlags)
      requires Valid()
      modifies this`mapInfo
      ensures Valid() && View() == Step(env, old(View()), OpSetServices(addr, nServices))
    {
      hide Indexed, Inv, TableView, Entries, FindId;
      StepKeeps(env, View(), OpSetServices(addr, nServices));
      var found := Find(addr);
      if found.None? {
        return;
      }
      var nId := found.value;
      EntriesAt(mapInfo, nId);
      if mapInfo[nId].entry.service != addr {
        return;
      }
      Restat(nId, mapInfo[nId].entry.(nServices := nServices));
    }

    /** One round of the resolution loop. Its case for a contested slot that
        is empty again is unreachable. */
    method ResolveOneCollision(idNew: int, clock: Clock, nRnd: nat)
      requires Valid() && idNew in triedCollisions
      modifies this, vvNew, vvTried
      ensures Valid() && View() == ResolveOne(env, old(View()), idNew, clock)
    {
      hide Indexed, Inv, TableView, Entries, Good, TriedSlot;
      ghost var b := View();
      ResolveOneKeeps(env, b, idNew, clock);
      EntriesAt(mapInfo, idNew);
      var eraseCollision := false;
      if idNew !in mapInfo {
        eraseCollision := true;
      } else {
        var infoNew := mapInfo[idNew].entry;
        var ts := TriedSlot(env, infoNew.service);
        TriedSlotBounds(env, infoNew.service);
        TableAt(vvTried, ts);
        if !env.isValid(infoNew.service.ip) {
          eraseCollision := true;
        } else {
          ContestedSlot(env, b, idNew);
          assert vvTried[ts.bucket, ts.pos] != -1;
          var idOld := vvTried[ts.bucket, ts.pos];
          EntriesAt(mapInfo, idOld);
          var infoOld := mapInfo[idOld].entry;
          if clock(idNew, 0) - infoOld.nLastSuccess < REPLACEMENT_HOURS * (60 * 60) {
            eraseCollision := true;
          } else if clock(idNew, 1) - infoOld.nLastTry < REPLACEMENT_HOURS * (60 * 60) {
            if clock(idNew, 2) - infoOld.nLastTry > 60 {
              Good_(infoNew.service, false, clock(idNew, 3), nRnd);
              eraseCollision := true;
            }
          } else if clock(idNew, 4) - infoNew.nLastSuccess > TEST_WINDOW {
            Good_(infoNew.service, false, clock(idNew, 5), nRnd);
            eraseCollision := true;
          }
        }
      }
      if eraseCollision {
        triedCollisions := triedCollisions - {idNew};
      }
    }

    method ResolveCollisions_(clock: Clock, nRnd: int -> nat)
      requires Valid()
      modifies this, vvNew, vvTried
      ensures Valid() && View() == Step(env, old(View()), OpResolve(clock))
    {
      hide Indexed, Inv, TableView, Entries, ResolveOne, ResolveAll;
      var todo := triedCollisions;
      while todo != {}
        invariant Valid() && todo <= triedCollisions
        invariant ResolveAll(env, View(), todo, clock) == ResolveAll(env, old(View()), old(triedCollisions), clock)
        decreases |todo|
      {
        ghost var least := LeastOf(todo);
        var idNew: int :| idNew in todo && forall id :: id in todo ==> idNew <= id;
        ghost var b := View();
        ResolveNext(env, b, todo, idNew, clock);
        ResolveOneCollision(idNew, clock, nRnd(idNew));
        CollisionsLeft(env, b, idNew, clock);
        todo := todo - {idNew};
      }
      ResolveNone(env, View(), clock);
    }

    method SelectTriedCollision_(draw: nat) returns (r: Option<Entry>)
      requires Valid()
      modifies this`triedCollisions
      ensures Valid() && (View(), r) == SelectCollision(env, old(View()), draw)
    {
      hide Indexed, Inv, TableView, Entries, TriedSlot, Kth;
      ghost var b := View();
      StepKeeps(env, b, OpSelect(draw));
      if |triedCollisions| == 0 {
        return None;
      }
      var idNew := Advance(triedCollisions, draw % |triedCollisions|);
      EntriesAt(mapInfo, idNew);
      if idNew !in mapInfo {
        triedCollisions := triedCollisions - {idNew};
        return None;
      }
      var service := mapInfo[idNew].entry.service;
      var ts := TriedSlot(env, service);
      TriedSlotBounds(env, service);
      TableAt(vvTried, ts);
      ContestedSlot(env, b, idNew);
      var idOld := vvTried[ts.bucket, ts.pos];
      EntriesAt(mapInfo, idOld);
      r := Some(mapInfo[idOld].entry);
    }

    /** A random sample of the addresses that are worth passing on: distinct
        known addresses, as many as the limit allows, and all the good ones if
        there are fewer. The book does not change. */
    method GetAddr_(clock: IdClock, draws: nat -> nat) returns (vAddr: seq<Address>, ghost ids: seq<int>)
      requires Valid()
      modifies this`mapInfo, this`vRandom
      ensures Valid() && View() == old(View())
      ensures |vAddr| == |ids| <= AnswerLimit(|View().entries|)
      ensures forall i, j :: 0 <= i < j < |ids| ==> ids[i] != ids[j]
      ensures forall i :: 0 <= i < |ids| ==>
                && ids[i] in View().entries && !IsTerrible(View().entries[ids[i]], clock(ids[i]))
                && vAddr[i] == AddressOf(View().entries[ids[i]])
      ensures |vAddr| < AnswerLimit(|View().entries|) ==>
                forall id :: id in View().entries && !IsTerrible(View().entries[id], clock(id)) ==> id in ids
    {
      hide Indexed, Inv, TableView, IsTerrible, AnswerLimit, Sampled, Entries;
      SizesAgree(env, Fields());
      EntriesSize(mapInfo);
      ghost var size := |vRandom|;
      var nNodes := AnswerLimit(|vRandom|);
      ghost var b := View();
      vAddr, ids := [], [];
      SampleNone(b, clock);
      var n := 0;
      while n < |vRandom| && |vAddr| < nNodes
        invariant Indexes(0) && View() == b && |vRandom| == size && n <= size
        invariant |vAddr| == |ids| <= nNodes
        invariant Sampled(b, clock, vRandom[..n], ids, vAddr)
      {
        var nRndPos := RandRange(draws(n), |vRandom| - n) + n;
        ghost var before := vRandom[..n];
        SwapRandom(n, nRndPos, 0);
        assert vRandom[..n] == before;
        RandomKnown(env, Fields(), n, 0);
        EntriesAt(mapInfo, vRandom[n]);
        var ai := mapInfo[vRandom[n]].entry;
        SampleMore(b, clock, before, ids, vAddr, vRandom[n]);
        assert vRandom[..n + 1] == before + [vRandom[n]];
        if !IsTerrible(ai, clock(vRandom[n])) {
          vAddr := vAddr + [AddressOf(ai)];
          ids := ids + [vRandom[n]];
        }
        n := n + 1;
      }
      SampleFacts(b, clock, vRandom[..n], ids, vAddr);
      if |vAddr| < nNodes {
        assert vRandom[..n] == vRandom;
        EveryIdListed(env, Fields());
      }
    }

    /** Any sequence of operations, carried out one after the other. */
    method Execute(ops: seq<Op>)
      requires Valid()
      modifies this, vvNew, vvTried
      ensures Valid() && View() == Run(env, old(View()), ops)
    {
      hide Indexed, Inv, TableView, Entries, Add, Good, Touch, ResolveAll, SelectCollision;
      var i := 0;
      assert ops[0..] == ops;
      while i < |ops|
        invariant 0 <= i <= |ops| && Valid()
        invariant Run(env, View(), ops[i..]) == Run(env, old(View()), ops)
      {
        match ops[i] {
          case OpAdd(addr, source, penalty, now, later, draw) =>
            var _ := Add_(addr, source, penalty, now, later, draw);
          case OpGood(service, test, time) => Good_(service, test, time, 0);
          case OpAttempt(service, count, time) => Attempt_(service, count, time);
          case OpConnected(service, time) => Connected_(service, time);
          case OpSetServices(service, services) => SetServices_(service, services);
          case OpGetAddr(clock, draws) => var _, _ := GetAddr_(clock, draws);
          case OpResolve(clock) => ResolveCollisions_(clock, _ => 0);
          case OpSelect(draw) => var _ := SelectTriedCollision_(draw);
        }
        assert ops[i..][1..] == ops[i + 1..];
        i := i + 1;
      }
    }
  }
}
