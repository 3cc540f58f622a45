/** The address manager without its indexes: which addresses are known, and
    which table slots they hold. Every count and reverse index that the
    manager keeps is a function of this state. */
module AddrBook {
  import opened Options
  import opened Nonlinear

  const NEW_BUCKET_COUNT: nat := 1024
  const TRIED_BUCKET_COUNT: nat := 256
  const BUCKET_SIZE: nat := 64
  const TRIED_BUCKETS_PER_GROUP: nat := 8
  const NEW_BUCKETS_PER_SOURCE_GROUP: nat := 64
  const NEW_BUCKETS_PER_ADDRESS: nat := 8
  const HORIZON_DAYS: int := 30
  const RETRIES: int := 3
  const MAX_FAILURES: int := 10
  const MIN_FAIL_DAYS: int := 7
  const REPLACEMENT_HOURS: int := 4
  const TRIED_COLLISION_SIZE: nat := 10
  const TEST_WINDOW: int := 40 * 60
  const GETADDR_MAX_PCT: nat := 23
  const GETADDR_MAX: nat := 2500

  type NetAddr = seq<bv8>
  type Group = seq<bv8>
  type ServiceFlags = set<nat>   // the bits that are set

  datatype Service = Service(ip: NetAddr, port: nat)

  datatype Address = Address(service: Service, nTime: nat, nServices: ServiceFlags)

  datatype Entry = Entry(
    service: Service, source: NetAddr, nTime: nat, nServices: ServiceFlags,
    nLastTry: int, nLastCountAttempt: int, nLastSuccess: int, nAttempts: int)

  /** What is fed to the keyed hash; the secret key is fixed for a run and
      belongs to the hash function itself. */
  datatype HashInput =
    | TriedKey(service: Service)
    | TriedGroup(group: Group, choice: nat)
    | NewGroup(group: Group, sourceGroup: Group)
    | NewSource(sourceGroup: Group, choice: nat)
    | Position(fNew: bool, bucket: nat, service: Service)

  /** The parts of the world that the manager only queries. */
  datatype Env = Env(
    hash: HashInput -> nat,
    group: NetAddr -> Group,
    isRoutable: NetAddr -> bool,
    isValid: NetAddr -> bool,
    discriminatePorts: bool)

  datatype Slot = Slot(bucket: nat, pos: nat)

  function BucketPosition(env: Env, fNew: bool, bucket: nat, service: Service): nat {
    env.hash(Position(fNew, bucket, service)) % BUCKET_SIZE
  }

  function TriedSlot(env: Env, service: Service): Slot {
    var hash1 := env.hash(TriedKey(service));
    var hash2 := env.hash(TriedGroup(env.group(service.ip), hash1 % TRIED_BUCKETS_PER_GROUP));
    var bucket := hash2 % TRIED_BUCKET_COUNT;
    Slot(bucket, BucketPosition(env, false, bucket, service))
  }

  function NewSlot(env: Env, service: Service, source: NetAddr): Slot {
    var sourceGroup := env.group(source);
    var hash1 := env.hash(NewGroup(env.group(service.ip), sourceGroup));
    var hash2 := env.hash(NewSource(sourceGroup, hash1 % NEW_BUCKETS_PER_SOURCE_GROUP));
    var bucket := hash2 % NEW_BUCKET_COUNT;
    Slot(bucket, BucketPosition(env, true, bucket, service))
  }

  /** The key under which a service is filed: without port discrimination all
      ports of a host share one entry. */
  function Norm(env: Env, service: Service): Service {
    if env.discriminatePorts then service else service.(port := 0)
  }

  predicate IsTerrible(e: Entry, now: int) {
    if e.nLastTry != 0 && e.nLastTry >= now - 60 then false
    else if e.nTime > now + 10 * 60 then true
    else if e.nTime == 0 || now - e.nTime > HORIZON_DAYS * 24 * 60 * 60 then true
    else if e.nLastSuccess == 0 && e.nAttempts >= RETRIES then true
    else now - e.nLastSuccess > MIN_FAIL_DAYS * 24 * 60 * 60 && e.nAttempts >= MAX_FAILURES
  }

  function AtLeastZero(x: int): nat { if x >= 0 then x else 0 }

  datatype Book = Book(
    entries: map<int, Entry>,
    newTab: map<Slot, int>,     // occupied slots of the "new" table
    triedTab: map<Slot, int>,     // occupied slots of the "tried" table
    nextId: int,
    collisions: set<int>,
    lastGood: int)

  const EMPTY: Book := Book(map[], map[], map[], 0, {}, 1)

  /** The "new" slots an id holds; the manager's nRefCount is their number. */
  ghost function Slots(newTab: map<Slot, int>, id: int): set<Slot> {
    set s | s in newTab && newTab[s] == id
  }

  ghost function RefCount(newTab: map<Slot, int>, id: int): nat {
    |Slots(newTab, id)|
  }

  // ---------- what each operation does to the book ----------

  /** The id filed under a service, if any. */
  ghost function FindId(env: Env, entries: map<int, Entry>, service: Service): (r: Option<int>)
    ensures r.Some? ==> r.value in entries && Norm(env, entries[r.value].service) == Norm(env, service)
    ensures r.None? ==> forall id :: id in entries ==> Norm(env, entries[id].service) != Norm(env, service)
  {
    if exists id :: id in entries && Norm(env, entries[id].service) == Norm(env, service)
    then
      var id :| id in entries && Norm(env, entries[id].service) == Norm(env, service);
      Some(id)
    else None
  }

  /** Give up one "new" slot; its holder is forgotten when it was the last. */
  ghost function Unref(b: Book, s: Slot): Book {
    if s !in b.newTab then b
    else
      var id := b.newTab[s];
      var newTab := b.newTab - {s};
      b.(newTab := newTab, entries := if id in newTab.Values then b.entries else b.entries - {id})
  }

  /** Take an id out of all its "new" slots. */
  ghost function Strip(b: Book, id: int): Book {
    b.(newTab := map s | s in b.newTab && b.newTab[s] != id :: b.newTab[s])
  }

  /** Move an id from all its "new" slots to its one "tried" slot; whoever was
      there goes back to the "new" slot of the source that first told us. */
  ghost function Promote(env: Env, b: Book, id: int): Book
    requires id in b.entries
  {
    var b1 := Strip(b, id);
    var ts := TriedSlot(env, b.entries[id].service);
    if ts in b.triedTab && b.triedTab[ts] in b.entries then
      var evicted := b.triedTab[ts];
      var ns := NewSlot(env, b.entries[evicted].service, b.entries[evicted].source);
      var b2 := Unref(b1, ns);
      b2.(newTab := b2.newTab[ns := evicted], triedTab := b2.triedTab[ts := id])
    else
      b1.(triedTab := b1.triedTab[ts := id])
  }

  ghost function Good(env: Env, b: Book, service: Service, testBeforeEvict: bool, time: int): Book {
    var b0 := b.(lastGood := time);
    match FindId(env, b.entries, service)
    case None => b0
    case Some(id) =>
      if b.entries[id].service != service then b0
      else
        var b1 := b0.(entries := b.entries[id :=
          b.entries[id].(nLastSuccess := time, nLastTry := time, nAttempts := 0)]);
        if id in b.triedTab.Values then b1
        else if testBeforeEvict && TriedSlot(env, service) in b.triedTab then
          if |b.collisions| < TRIED_COLLISION_SIZE
          then b1.(collisions := b.collisions + {id})
          else b1
        else Promote(env, b1, id)
  }

  /** The entry after a repeated announcement: a newer time, more services. */
  function Refreshed(e: Entry, addr: Address, penalty: int, now: int): Entry {
    var interval := if now - addr.nTime < 24 * 60 * 60 then 60 * 60 else 24 * 60 * 60;
    var time :=
      if addr.nTime != 0 && (e.nTime == 0 || e.nTime < addr.nTime - interval - penalty)
      then AtLeastZero(addr.nTime - penalty) else e.nTime;
    e.(nTime := time, nServices := e.nServices + addr.nServices)
  }

  function FirstSeen(addr: Address, source: NetAddr, penalty: int): Entry {
    Entry(addr.service, source, AtLeastZero(addr.nTime - penalty), addr.nServices, 0, 0, 0, 0)
  }

  /** May `id` take over the "new" slot `s`? */
  ghost predicate MayTake(b: Book, s: Slot, id: int, now: int) {
    s in b.newTab && b.newTab[s] in b.entries ==>
      || IsTerrible(b.entries[b.newTab[s]], now)
      || (RefCount(b.newTab, b.newTab[s]) > 1 && RefCount(b.newTab, id) == 0)
  }

  /** Give `id` the "new" slot that goes with `source`, if it may have it; an
      id left without any slot is forgotten. */
  ghost function Place(env: Env, b: Book, id: int, source: NetAddr, now: int): Book
    requires id in b.entries
  {
    var s := NewSlot(env, b.entries[id].service, source);
    if s in b.newTab && b.newTab[s] == id then b
    else if MayTake(b, s, id, now) then
      var b1 := Unref(b, s);
      b1.(newTab := b1.newTab[s := id])
    else if RefCount(b.newTab, id) == 0 then b.(entries := b.entries - {id})
    else b
  }

  ghost function Add(env: Env, b: Book, addr: Address, source: NetAddr,
                     nTimePenalty: int, now: int, later: int, draw: nat): (Book, bool)
  {
    if !env.isRoutable(addr.service.ip) then (b, false)
    else
      var penalty := if addr.service.ip == source then 0 else nTimePenalty;
      match FindId(env, b.entries, addr.service)
      case Some(id) =>
        var e := Refreshed(b.entries[id], addr, penalty, now);
        var b1 := b.(entries := b.entries[id := e]);
        if addr.nTime == 0 || (e.nTime != 0 && addr.nTime <= e.nTime) then (b1, false)
        else if id in b.triedTab.Values then (b1, false)
        else if RefCount(b.newTab, id) == NEW_BUCKETS_PER_ADDRESS then (b1, false)
        else if draw % Pow2(RefCount(b.newTab, id)) != 0 then (b1, false)
        else (Place(env, b1, id, source, later), false)
      case None =>
        var id := b.nextId;
        var b1 := b.(entries := b.entries[id := FirstSeen(addr, source, penalty)], nextId := id + 1);
        (Place(env, b1, id, source, later), true)
  }

  /** Change the statistics of the entry filed under exactly this service. */
  ghost function Touch(env: Env, b: Book, service: Service, f: Entry -> Entry): Book {
    match FindId(env, b.entries, service)
    case None => b
    case Some(id) =>
      if b.entries[id].service != service then b
      else b.(entries := b.entries[id := f(b.entries[id])])
  }

  function Attempted(e: Entry, countFailure: bool, time: int, lastGood: int): Entry {
    var e1 := e.(nLastTry := time);
    if countFailure && e.nLastCountAttempt < lastGood
    then e1.(nLastCountAttempt := time, nAttempts := e.nAttempts + 1)
    else e1
  }

  function SeenConnected(e: Entry, time: nat): Entry {
    if time - e.nTime > 20 * 60 then e.(nTime := time) else e
  }

  ghost function Least(ids: set<int>): (m: int)
    requires ids != {}
    ensures m in ids && forall i :: i in ids ==> m <= i
  {
    LeastExists(ids);
    var m :| m in ids && forall i :: i in ids ==> m <= i;
    m
  }

  lemma Member<T>(s: set<T>) returns (x: T)
    requires s != {}
    ensures x in s
  {
    x :| x in s;
  }

  lemma {:induction false} LeastOf(ids: set<int>) returns (m: int)
    requires ids != {}
    ensures m in ids && forall i :: i in ids ==> m <= i
    decreases |ids|
  {
    var x := Member(ids);
    var rest := ids - {x};
    m := x;
    if rest != {} {
      var n := LeastOf(rest);
      if n < x { m := n; }
    }
    forall i | i in ids ensures m <= i {
      assert i == x || i in rest;
    }
  }

  lemma LeastExists(ids: set<int>)
    requires ids != {}
    ensures exists m :: m in ids && forall i :: i in ids ==> m <= i
  {
    var m := LeastOf(ids);
  }

  /** Clock readings while one collision is looked at, in program order. */
  type Clock = (int, nat) -> int

  /** What to do about one recorded collision; `id` is dropped from the list
      unless the test of the incumbent is still pending. */
  ghost function ResolveOne(env: Env, b: Book, id: int, clock: Clock): Book {
    if id !in b.entries then Drop(b, id)
    else
      var service := b.entries[id].service;
      var ts := TriedSlot(env, service);
      if !env.isValid(service.ip) || ts !in b.triedTab || b.triedTab[ts] !in b.entries then Drop(b, id)
      else
        var incumbent := b.entries[b.triedTab[ts]];
        if clock(id, 0) - incumbent.nLastSuccess < REPLACEMENT_HOURS * 60 * 60 then Drop(b, id)
        else if clock(id, 1) - incumbent.nLastTry < REPLACEMENT_HOURS * 60 * 60 then
          if clock(id, 2) - incumbent.nLastTry > 60
          then Drop(Good(env, b, service, false, clock(id, 3)), id)
          else b
        else if clock(id, 4) - b.entries[id].nLastSuccess > TEST_WINDOW
        then Drop(Good(env, b, service, false, clock(id, 5)), id)
        else b
  }

  ghost function Drop(b: Book, id: int): Book {
    b.(collisions := b.collisions - {id})
  }

  ghost function ResolveAll(env: Env, b: Book, ids: set<int>, clock: Clock): Book
    decreases |ids|
  {
    if ids == {} then b
    else
      var id := Least(ids);
      ResolveAll(env, ResolveOne(env, b, id, clock), ids - {id}, clock)
  }

  /** The k-th smallest member. */
  ghost function Kth(ids: set<int>, k: nat): (r: int)
    requires k < |ids|
    ensures r in ids
    decreases k
  {
    if k == 0 then Least(ids) else Kth(ids - {Least(ids)}, k - 1)
  }

  /** Which incumbent to test next; a collision whose challenger is gone is
      dropped instead. */
  ghost function SelectCollision(env: Env, b: Book, draw: nat): (Book, Option<Entry>) {
    if |b.collisions| == 0 then (b, None)
    else
      var id := Kth(b.collisions, draw % |b.collisions|);
      if id !in b.entries then (Drop(b, id), None)
      else
        var ts := TriedSlot(env, b.entries[id].service);
        if ts in b.triedTab && b.triedTab[ts] in b.entries
        then (b, Some(b.entries[b.triedTab[ts]]))
        else (b, None)
  }

  // ---------- runs ----------

  /** The clock as each id is looked at; a call looks at an id at most once. */
  type IdClock = int -> int

  datatype Op =
    | OpAdd(addr: Address, source: NetAddr, penalty: int, now: int, later: int, draw: nat)
    | OpGood(service: Service, testBeforeEvict: bool, time: int)
    | OpAttempt(service: Service, countFailure: bool, time: int)
    | OpConnected(service: Service, seen: nat)
    | OpSetServices(service: Service, services: ServiceFlags)
    | OpGetAddr(times: IdClock, draws: nat -> nat)
    | OpResolve(clock: Clock)
    | OpSelect(draw: nat)

  ghost function Step(env: Env, b: Book, op: Op): Book {
    match op
    case OpAdd(addr, source, penalty, now, later, draw) => Add(env, b, addr, source, penalty, now, later, draw).0
    case OpGood(service, test, time) => Good(env, b, service, test, time)
    case OpAttempt(service, count, time) =>
      var lastGood := b.lastGood;
      Touch(env, b, service, e => Attempted(e, count, time, lastGood))
    case OpConnected(service, time) => Touch(env, b, service, e => SeenConnected(e, time))
    case OpSetServices(service, services) => Touch(env, b, service, (e: Entry) => e.(nServices := services))
    case OpGetAddr(_, _) => b
    case OpResolve(clock) => ResolveAll(env, b, b.collisions, clock)
    case OpSelect(draw) => SelectCollision(env, b, draw).0
  }

  ghost function Run(env: Env, b: Book, ops: seq<Op>): Book
    decreases |ops|
  {
    if ops == [] then b else Run(env, Step(env, b, ops[0]), ops[1..])
  }

  // ---------- the invariant ----------

  ghost predicate NewOk(env: Env, b: Book) {
    forall s :: s in b.newTab ==>
      && b.newTab[s] in b.entries
      && s.bucket < NEW_BUCKET_COUNT
      && s.pos == BucketPosition(env, true, s.bucket, b.entries[b.newTab[s]].service)
  }

  ghost predicate TriedOk(env: Env, b: Book) {
    forall s :: s in b.triedTab ==>
      && b.triedTab[s] in b.entries
      && s == TriedSlot(env, b.entries[b.triedTab[s]].service)
  }

  ghost predicate Apart(b: Book) {
    forall s, t :: s in b.newTab && t in b.triedTab ==> b.newTab[s] != b.triedTab[t]
  }

  /** Every known id but those in `floating` holds a slot. */
  ghost predicate Placed(b: Book, floating: set<int>) {
    forall id :: id in b.entries && id !in floating ==> id in b.newTab.Values || id in b.triedTab.Values
  }

  ghost predicate RefBound(b: Book) {
    forall id :: id in b.entries ==> RefCount(b.newTab, id) <= NEW_BUCKETS_PER_ADDRESS
  }

  ghost predicate IdsOk(env: Env, b: Book) {
    && 0 <= b.nextId
    && (forall id :: id in b.entries ==> 0 <= id < b.nextId && env.isRoutable(b.entries[id].service.ip))
    && (forall i, j ::
          (i in b.entries && j in b.entries && Norm(env, b.entries[i].service) == Norm(env, b.entries[j].service))
          ==> i == j)
  }

  /** At most ten collisions are pending, and the slot each challenger is
      after is still occupied. */
  ghost predicate CollisionsOk(env: Env, b: Book) {
    && |b.collisions| <= TRIED_COLLISION_SIZE
    && (forall id :: id in b.collisions ==> id < b.nextId)
    && (forall id :: id in b.collisions && id in b.entries ==>
          TriedSlot(env, b.entries[id].service) in b.triedTab)
  }

  ghost predicate Inv(env: Env, b: Book, floating: set<int>) {
    && NewOk(env, b) && TriedOk(env, b) && Apart(b) && Placed(b, floating)
    && RefBound(b) && IdsOk(env, b) && CollisionsOk(env, b)
  }

  /** What no operation undoes: tried slots stay occupied, an id that is gone
      never comes back, and an id keeps its address and first source. */
  ghost predicate Evolves(b: Book, b': Book) {
    && b.nextId <= b'.nextId
    && b.triedTab.Keys <= b'.triedTab.Keys
    && (forall id :: id in b'.entries && id < b.nextId ==>
          && id in b.entries
          && b'.entries[id].service == b.entries[id].service
          && b'.entries[id].source == b.entries[id].source)
  }

  lemma EvolvesTrans(a: Book, b: Book, c: Book)
    requires Evolves(a, b) && Evolves(b, c)
    ensures Evolves(a, c)
  {
  }

  // ---------- slots and reference counts ----------

  lemma SlotsGain(newTab: map<Slot, int>, s: Slot, id: int)
    requires s !in newTab
    ensures RefCount(newTab[s := id], id) == RefCount(newTab, id) + 1
    ensures forall i :: i != id ==> Slots(newTab[s := id], i) == Slots(newTab, i)
  {
    assert Slots(newTab[s := id], id) == Slots(newTab, id) + {s};
    assert s !in Slots(newTab, id);
  }

  lemma SlotsLose(newTab: map<Slot, int>, s: Slot)
    requires s in newTab
    ensures RefCount(newTab - {s}, newTab[s]) == RefCount(newTab, newTab[s]) - 1
    ensures forall i :: i != newTab[s] ==> Slots(newTab - {s}, i) == Slots(newTab, i)
  {
    var id := newTab[s];
    assert Slots(newTab, id) == Slots(newTab - {s}, id) + {s};
    assert s !in Slots(newTab - {s}, id);
    forall i | i != id ensures Slots(newTab - {s}, i) == Slots(newTab, i) {
    }
  }

  lemma CountZero(newTab: map<Slot, int>, id: int)
    ensures RefCount(newTab, id) == 0 <==> id !in newTab.Values
  {
    if id in newTab.Values {
      var s :| s in newTab && newTab[s] == id;
      assert s in Slots(newTab, id);
    } else {
      assert Slots(newTab, id) == {};
    }
  }

  // ---------- preservation ----------

  lemma UnrefKeeps(env: Env, b: Book, s: Slot, floating: set<int>)
    requires Inv(env, b, floating)
    ensures Inv(env, Unref(b, s), floating)
    ensures Evolves(b, Unref(b, s))
    ensures s !in Unref(b, s).newTab
    ensures forall id :: id in b.entries && (id !in b.newTab.Values || s !in b.newTab || b.newTab[s] != id) ==>
              id in Unref(b, s).entries && Slots(Unref(b, s).newTab, id) == Slots(b.newTab, id)
  {
    if s in b.newTab {
      SlotsLose(b.newTab, s);
      var b' := Unref(b, s);
      var id := b.newTab[s];
      assert id !in b.triedTab.Values;
      forall i | i in b'.entries && i !in floating ensures i in b'.newTab.Values || i in b'.triedTab.Values {
        if i in b.newTab.Values && i != id {
          var t :| t in b.newTab && b.newTab[t] == i;
          assert t in b'.newTab && b'.newTab[t] == i;
        }
      }
    }
  }

  /** Rewriting the statistics of one entry changes nothing structural. */
  lemma RestatKeeps(env: Env, b: Book, id: int, e: Entry, floating: set<int>)
    requires Inv(env, b, floating)
    requires id in b.entries && e.service == b.entries[id].service && e.source == b.entries[id].source
    ensures Inv(env, b.(entries := b.entries[id := e]), floating)
    ensures Evolves(b, b.(entries := b.entries[id := e]))
  {
    hide BucketPosition, TriedSlot, Norm, RefCount;
    RestatIds(env, b, id, e);
  }

  lemma RestatIds(env: Env, b: Book, id: int, e: Entry)
    requires IdsOk(env, b) && id in b.entries && e.service == b.entries[id].service
    ensures IdsOk(env, b.(entries := b.entries[id := e]))
  {
    hide Norm;
  }

  lemma PlaceKeeps(env: Env, b: Book, id: int, source: NetAddr, now: int)
    requires Inv(env, b, {id})
    requires id in b.entries && id !in b.triedTab.Values
    requires RefCount(b.newTab, id) < NEW_BUCKETS_PER_ADDRESS
    ensures Inv(env, Place(env, b, id, source, now), {})
    ensures Evolves(b, Place(env, b, id, source, now))
  {
    var s := NewSlot(env, b.entries[id].service, source);
    CountZero(b.newTab, id);
    if s in b.newTab && b.newTab[s] == id {
    } else if MayTake(b, s, id, now) {
      UnrefKeeps(env, b, s, {id});
      var b1 := Unref(b, s);
      assert id in b1.entries && Slots(b1.newTab, id) == Slots(b.newTab, id);
      TakeSlot(env, b1, s, id);
    } else if RefCount(b.newTab, id) == 0 {
    }
  }

  lemma TakePlaced(b: Book, s: Slot, id: int)
    requires Placed(b, {id}) && s !in b.newTab
    ensures Placed(b.(newTab := b.newTab[s := id]), {})
  {
    var b' := b.(newTab := b.newTab[s := id]);
    forall i | i in b'.entries ensures i in b'.newTab.Values || i in b'.triedTab.Values {
      if i == id {
        assert s in b'.newTab && b'.newTab[s] == i;
      } else if i in b.newTab.Values {
        var t :| t in b.newTab && b.newTab[t] == i;
        assert t in b'.newTab && b'.newTab[t] == i;
      }
    }
  }

  lemma TakeSlot(env: Env, b: Book, s: Slot, id: int)
    requires Inv(env, b, {id})
    requires id in b.entries && id !in b.triedTab.Values
    requires RefCount(b.newTab, id) < NEW_BUCKETS_PER_ADDRESS
    requires s !in b.newTab && s.bucket < NEW_BUCKET_COUNT
    requires s.pos == BucketPosition(env, true, s.bucket, b.entries[id].service)
    ensures Inv(env, b.(newTab := b.newTab[s := id]), {})
  {
    hide Placed, IdsOk, TriedSlot;
    SlotsGain(b.newTab, s, id);
    TakePlaced(b, s, id);
    IdsOnly(env, b, b.(newTab := b.newTab[s := id]));
  }

  /** Taking an id out of all its "new" slots leaves it floating. */
  lemma StripKeeps(env: Env, b: Book, id: int)
    requires Inv(env, b, {}) && id in b.entries
    ensures var b' := Strip(b, id);
            Inv(env, b', {id}) && id !in b'.newTab.Values && Evolves(b, b')
  {
    var b' := Strip(b, id);
    forall i | i in b'.entries ensures RefCount(b'.newTab, i) <= NEW_BUCKETS_PER_ADDRESS {
      if i == id {
        assert Slots(b'.newTab, i) == {};
      } else {
        assert Slots(b'.newTab, i) == Slots(b.newTab, i);
      }
    }
    forall i | i in b'.entries && i != id ensures i in b'.newTab.Values || i in b'.triedTab.Values {
      if i in b.newTab.Values {
        var t :| t in b.newTab && b.newTab[t] == i;
        assert t in b'.newTab && b'.newTab[t] == i;
      }
    }
  }

  lemma PromoteKeeps(env: Env, b: Book, id: int)
    requires Inv(env, b, {}) && id in b.entries && id !in b.triedTab.Values
    ensures Inv(env, Promote(env, b, id), {})
    ensures Evolves(b, Promote(env, b, id))
    ensures Promote(env, b, id).collisions == b.collisions
  {
    hide Inv, Evolves;
    StripKeeps(env, b, id);
    var b1 := Strip(b, id);
    var ts := TriedSlot(env, b.entries[id].service);
    if ts in b.triedTab {
      TriedHolder(env, b1, ts, {id});
      PromoteEvicts(env, b1, ts, id);
      EvolvesTrans(b, b1, Promote(env, b, id));
    } else {
      EnterKeeps(env, b1, ts, id);
      EvolvesTrans(b, b1, b1.(triedTab := b1.triedTab[ts := id]));
    }
  }

  /** A promotion moves one id to "tried" and at most one back, which then holds a
      single "new" slot; it forgets an address only when it takes that slot from an
      id that had no other. */
  lemma PromoteMoves(env: Env, b: Book, id: int)
    requires Inv(env, b, {}) && id in b.entries && id !in b.triedTab.Values
    ensures var b' := Promote(env, b, id);
            var ts := TriedSlot(env, b.entries[id].service);
            && b'.triedTab == b.triedTab[ts := id] && id in b'.entries && id !in b'.newTab.Values
            && (ts !in b.triedTab ==> b'.entries == b.entries)
            && (ts in b.triedTab ==>
                  && b.triedTab[ts] in b.entries
                  && var evicted := b.triedTab[ts];
                     var ns := NewSlot(env, b.entries[evicted].service, b.entries[evicted].source);
                     && evicted in b'.entries && Slots(b'.newTab, evicted) == {ns}
                     && b'.entries == if ns in b.newTab && b.newTab[ns] != id && Slots(b.newTab, b.newTab[ns]) == {ns}
                                      then b.entries - {b.newTab[ns]} else b.entries)
  {
    hide NewSlot, TriedSlot, CollisionsOk, RefBound, IdsOk;
    var ts := TriedSlot(env, b.entries[id].service);
    if ts in b.triedTab {
      var evicted := b.triedTab[ts];
      TriedHolder(env, b, ts, {});
      var ns := NewSlot(env, b.entries[evicted].service, b.entries[evicted].source);
      var b1 := Strip(b, id);
      if ns in b1.newTab { LastSlot(b1.newTab, ns); SlotsStripped(b, id, b1.newTab[ns]); }
      assert evicted !in Unref(b1, ns).newTab.Values;
    }
  }

  lemma LastSlot(newTab: map<Slot, int>, s: Slot)
    requires s in newTab
    ensures newTab[s] !in (newTab - {s}).Values <==> Slots(newTab, newTab[s]) == {s}
  {
    var id := newTab[s];
    forall t | t in Slots(newTab, id) && t != s
      ensures id in (newTab - {s}).Values
    {
      assert (newTab - {s})[t] == id;
    }
    if id in (newTab - {s}).Values {
      var t :| t in newTab - {s} && (newTab - {s})[t] == id;
      assert t in Slots(newTab, id);
    }
  }

  lemma SlotsStripped(b: Book, id: int, other: int)
    requires other != id
    ensures Slots(Strip(b, id).newTab, other) == Slots(b.newTab, other)
  {
  }

  lemma TriedHolder(env: Env, b: Book, ts: Slot, floating: set<int>)
    requires Inv(env, b, floating) && ts in b.triedTab
    ensures b.triedTab[ts] in b.entries && b.triedTab[ts] !in b.newTab.Values
  {
  }

  lemma UnrefFrame(b: Book, s: Slot)
    ensures var b' := Unref(b, s);
            && b' == b.(newTab := b'.newTab, entries := b'.entries)
            && b'.newTab.Values <= b.newTab.Values && s !in b'.newTab
            && (forall id :: id in b.entries && id !in b.newTab.Values ==>
                  id in b'.entries && b'.entries[id] == b.entries[id])
  {
  }

  lemma PromoteEvicts(env: Env, b1: Book, ts: Slot, id: int)
    requires Inv(env, b1, {id}) && id in b1.entries && id !in b1.newTab.Values && id !in b1.triedTab.Values
    requires ts == TriedSlot(env, b1.entries[id].service) && ts in b1.triedTab
    requires b1.triedTab[ts] in b1.entries && b1.triedTab[ts] !in b1.newTab.Values
    ensures var evicted := b1.triedTab[ts];
            var ns := NewSlot(env, b1.entries[evicted].service, b1.entries[evicted].source);
            var b2 := Unref(b1, ns);
            var b3 := b2.(newTab := b2.newTab[ns := evicted], triedTab := b2.triedTab[ts := id]);
            Inv(env, b3, {}) && Evolves(b1, b3) && b3.collisions == b1.collisions
  {
    hide Inv, Unref, TriedSlot;
    var evicted := b1.triedTab[ts];
    var ns := NewSlot(env, b1.entries[evicted].service, b1.entries[evicted].source);
    var b2 := Unref(b1, ns);
    UnrefKeeps(env, b1, ns, {id});
    UnrefFrame(b1, ns);
    CountZero(b2.newTab, evicted);
    ExchangeKeeps(env, b2, ts, ns, id);
  }

  lemma EnterKeeps(env: Env, b: Book, ts: Slot, id: int)
    requires Inv(env, b, {id}) && id in b.entries && id !in b.newTab.Values && id !in b.triedTab.Values
    requires ts == TriedSlot(env, b.entries[id].service) && ts !in b.triedTab
    ensures var b' := b.(triedTab := b.triedTab[ts := id]); Inv(env, b', {}) && Evolves(b, b')
  {
    hide Placed, RefBound, IdsOk, TriedSlot;
    var b' := b.(triedTab := b.triedTab[ts := id]);
    EnterPlaced(b, ts, id);
    IdsOnly(env, b, b');
  }

  lemma EnterPlaced(b: Book, ts: Slot, id: int)
    requires Placed(b, {id}) && RefBound(b) && ts !in b.triedTab
    ensures var b' := b.(triedTab := b.triedTab[ts := id]); Placed(b', {}) && RefBound(b')
  {
    var b' := b.(triedTab := b.triedTab[ts := id]);
    forall i | i in b'.entries ensures i in b'.newTab.Values || i in b'.triedTab.Values {
      if i == id {
        assert ts in b'.triedTab && b'.triedTab[ts] == i;
      } else if i in b.triedTab.Values {
        var t :| t in b.triedTab && b.triedTab[t] == i;
        assert t in b'.triedTab && b'.triedTab[t] == i;
      }
    }
  }

  /** The challenger takes the tried slot, the incumbent a free "new" slot. */
  lemma ExchangeKeeps(env: Env, b: Book, ts: Slot, ns: Slot, id: int)
    requires Inv(env, b, {id}) && id in b.entries && id !in b.newTab.Values && id !in b.triedTab.Values
    requires ts == TriedSlot(env, b.entries[id].service) && ts in b.triedTab && b.triedTab[ts] in b.entries
    requires RefCount(b.newTab, b.triedTab[ts]) == 0
    requires ns !in b.newTab && ns.bucket < NEW_BUCKET_COUNT
    requires ns.pos == BucketPosition(env, true, ns.bucket, b.entries[b.triedTab[ts]].service)
    ensures Inv(env, b.(newTab := b.newTab[ns := b.triedTab[ts]], triedTab := b.triedTab[ts := id]), {})
  {
    hide NewOk, TriedOk, Apart, Placed, RefBound, IdsOk, TriedSlot;
    ExchangeTables(env, b, ts, ns, id);
    ExchangeRefs(b, ts, ns, id);
    ExchangePlaced(b, ts, ns, id);
    IdsOnly(env, b, b.(newTab := b.newTab[ns := b.triedTab[ts]], triedTab := b.triedTab[ts := id]));
  }

  lemma IdsOnly(env: Env, b: Book, b': Book)
    requires IdsOk(env, b) && b'.entries == b.entries && b'.nextId == b.nextId
    ensures IdsOk(env, b')
  {
  }

  lemma ExchangeTables(env: Env, b: Book, ts: Slot, ns: Slot, id: int)
    requires NewOk(env, b) && TriedOk(env, b) && Apart(b) && id in b.entries && id !in b.newTab.Values
    requires ts == TriedSlot(env, b.entries[id].service) && ts in b.triedTab && id != b.triedTab[ts]
    requires ns !in b.newTab && ns.bucket < NEW_BUCKET_COUNT
    requires ns.pos == BucketPosition(env, true, ns.bucket, b.entries[b.triedTab[ts]].service)
    ensures var b' := b.(newTab := b.newTab[ns := b.triedTab[ts]], triedTab := b.triedTab[ts := id]);
            NewOk(env, b') && TriedOk(env, b') && Apart(b')
  {
  }

  lemma ExchangeRefs(b: Book, ts: Slot, ns: Slot, id: int)
    requires RefBound(b) && ts in b.triedTab && RefCount(b.newTab, b.triedTab[ts]) == 0 && ns !in b.newTab
    ensures RefBound(b.(newTab := b.newTab[ns := b.triedTab[ts]], triedTab := b.triedTab[ts := id]))
  {
    SlotsGain(b.newTab, ns, b.triedTab[ts]);
  }

  lemma ExchangePlaced(b: Book, ts: Slot, ns: Slot, id: int)
    requires Placed(b, {id}) && ts in b.triedTab && ns !in b.newTab
    ensures Placed(b.(newTab := b.newTab[ns := b.triedTab[ts]], triedTab := b.triedTab[ts := id]), {})
  {
    var evicted := b.triedTab[ts];
    var b' := b.(newTab := b.newTab[ns := evicted], triedTab := b.triedTab[ts := id]);
    forall i | i in b'.entries ensures i in b'.newTab.Values || i in b'.triedTab.Values {
      if i == id {
        assert ts in b'.triedTab && b'.triedTab[ts] == i;
      } else if i == evicted {
        assert ns in b'.newTab && b'.newTab[ns] == i;
      } else if i in b.triedTab.Values {
        var t :| t in b.triedTab && b.triedTab[t] == i;
        assert t in b'.triedTab && b'.triedTab[t] == i;
      } else {
        var t :| t in b.newTab && b.newTab[t] == i;
        assert t in b'.newTab && b'.newTab[t] == i;
      }
    }
  }

  lemma LastGoodKeeps(env: Env, b: Book, time: int)
    requires Inv(env, b, {})
    ensures Inv(env, b.(lastGood := time), {}) && Evolves(b, b.(lastGood := time))
  {
  }

  lemma CollideKeeps(env: Env, b: Book, id: int)
    requires Inv(env, b, {}) && id in b.entries && |b.collisions| < TRIED_COLLISION_SIZE
    requires TriedSlot(env, b.entries[id].service) in b.triedTab
    ensures var b' := b.(collisions := b.collisions + {id}); Inv(env, b', {}) && Evolves(b, b')
  {
    assert |b.collisions + {id}| <= |b.collisions| + 1;
  }

  lemma GoodKeeps(env: Env, b: Book, service: Service, test: bool, time: int)
    requires Inv(env, b, {})
    ensures Inv(env, Good(env, b, service, test, time), {})
    ensures Evolves(b, Good(env, b, service, test, time))
    ensures !test ==> Good(env, b, service, test, time).collisions == b.collisions
  {
    hide Inv, Evolves, Promote, FindId;
    var b0 := b.(lastGood := time);
    LastGoodKeeps(env, b, time);
    var found := FindId(env, b.entries, service);
    if found.Some? && b.entries[found.value].service == service {
      var id := found.value;
      var e := b.entries[id].(nLastSuccess := time, nLastTry := time, nAttempts := 0);
      var b1 := b0.(entries := b.entries[id := e]);
      RestatKeeps(env, b0, id, e, {});
      EvolvesTrans(b, b0, b1);
      if id !in b.triedTab.Values {
        if test && TriedSlot(env, service) in b.triedTab {
          if |b.collisions| < TRIED_COLLISION_SIZE {
            CollideKeeps(env, b1, id);
            EvolvesTrans(b, b1, b1.(collisions := b1.collisions + {id}));
          }
        } else {
          PromoteKeeps(env, b1, id);
          EvolvesTrans(b, b1, Promote(env, b1, id));
        }
      }
    }
  }

  lemma EvolvesRefl(b: Book)
    ensures Evolves(b, b)
  {
  }

  lemma InvWeaken(env: Env, b: Book, id: int)
    requires Inv(env, b, {}) && id in b.entries
    ensures Inv(env, b, {id}) && RefCount(b.newTab, id) <= NEW_BUCKETS_PER_ADDRESS
  {
  }

  lemma CreateKeeps(env: Env, b: Book, e: Entry)
    requires Inv(env, b, {}) && env.isRoutable(e.service.ip)
    requires forall id :: id in b.entries ==> Norm(env, b.entries[id].service) != Norm(env, e.service)
    ensures var b' := b.(entries := b.entries[b.nextId := e], nextId := b.nextId + 1);
            && Inv(env, b', {b.nextId}) && Evolves(b, b')
            && b.nextId !in b'.triedTab.Values && RefCount(b'.newTab, b.nextId) == 0
  {
    CountZero(b.newTab, b.nextId);
  }

  lemma AddKeeps(env: Env, b: Book, addr: Address, source: NetAddr,
                 nTimePenalty: int, now: int, later: int, draw: nat)
    requires Inv(env, b, {})
    ensures Inv(env, Add(env, b, addr, source, nTimePenalty, now, later, draw).0, {})
    ensures Evolves(b, Add(env, b, addr, source, nTimePenalty, now, later, draw).0)
  {
    hide Inv, Evolves, Place, FindId, IsTerrible, NewSlot, TriedSlot;
    EvolvesRefl(b);
    if env.isRoutable(addr.service.ip) {
      var penalty := if addr.service.ip == source then 0 else nTimePenalty;
      match FindId(env, b.entries, addr.service)
      case Some(id) =>
        var e := Refreshed(b.entries[id], addr, penalty, now);
        var b1 := b.(entries := b.entries[id := e]);
        RestatKeeps(env, b, id, e, {});
        if id !in b.triedTab.Values && RefCount(b.newTab, id) != NEW_BUCKETS_PER_ADDRESS {
          InvWeaken(env, b1, id);
          PlaceKeeps(env, b1, id, source, later);
          EvolvesTrans(b, b1, Place(env, b1, id, source, later));
        }
      case None =>
        var id := b.nextId;
        var b1 := b.(entries := b.entries[id := FirstSeen(addr, source, penalty)], nextId := id + 1);
        CreateKeeps(env, b, FirstSeen(addr, source, penalty));
        PlaceKeeps(env, b1, id, source, later);
        EvolvesTrans(b, b1, Place(env, b1, id, source, later));
    }
  }

  /** A routable address not seen before is answered with true in any case. It is
      kept exactly when its "new" slot is free, or held by a terrible entry or one
      that has another slot; otherwise only an id is used up. */
  lemma AddFirstKept(env: Env, b: Book, addr: Address, source: NetAddr,
                     nTimePenalty: int, now: int, later: int, draw: nat)
    requires Inv(env, b, {}) && env.isRoutable(addr.service.ip) && FindId(env, b.entries, addr.service) == None
    ensures var (b', answer) := Add(env, b, addr, source, nTimePenalty, now, later, draw);
            var s := NewSlot(env, addr.service, source);
            && answer
            && (s in b.newTab ==> b.newTab[s] in b.entries)
            && (b.nextId in b'.entries <==>
                  (s in b.newTab ==>
                     IsTerrible(b.entries[b.newTab[s]], later) || RefCount(b.newTab, b.newTab[s]) > 1))
            && (b.nextId in b'.entries ==> s in b'.newTab && b'.newTab[s] == b.nextId)
            && (b.nextId !in b'.entries ==> b' == b.(nextId := b.nextId + 1))
  {
    hide IsTerrible, NewSlot, TriedSlot, FindId, Norm;
    var penalty := if addr.service.ip == source then 0 else nTimePenalty;
    var id := b.nextId;
    var b1 := b.(entries := b.entries[id := FirstSeen(addr, source, penalty)], nextId := id + 1);
    CountZero(b.newTab, id);
    assert b1.entries - {id} == b.entries;
  }

  /** Two addresses that hash to one slot: the second is dropped, and answered with true. */
  lemma AddDroppedExample()
    ensures var env := Env(_ => 0, _ => [], _ => true, _ => true, true);
            var first, second := Address(Service([], 1), 1000, {}), Address(Service([], 2), 1000, {});
            var b := Run(env, EMPTY, [OpAdd(first, [], 0, 1000, 1000, 0)]);
            var (b', answer) := Add(env, b, second, [], 0, 1000, 1000, 0);
            answer && b.entries.Keys == {0} && b'.entries == b.entries
            && FindId(env, b'.entries, second.service) == None
  {
    var env := Env(_ => 0, _ => [], _ => true, _ => true, true);
    var first, second := Address(Service([], 1), 1000, {}), Address(Service([], 2), 1000, {});
    var op := OpAdd(first, [], 0, 1000, 1000, 0);
    var b := Step(env, EMPTY, op);
    assert [op][1..] == [];
    assert Run(env, EMPTY, [op]) == b;
    RunKeeps(env, EMPTY, [op]);
    var s := Slot(0, 0);
    assert b.entries == map[0 := FirstSeen(first, [], 0)] && b.newTab == map[s := 0];
    assert Slots(b.newTab, 0) == {s};
    AddFirstKept(env, b, second, [], 0, 1000, 1000, 0);
  }

  lemma TouchKeeps(env: Env, b: Book, service: Service, f: Entry -> Entry)
    requires Inv(env, b, {})
    requires forall e: Entry :: f(e).service == e.service && f(e).source == e.source
    ensures Inv(env, Touch(env, b, service, f), {})
    ensures Evolves(b, Touch(env, b, service, f))
  {
    match FindId(env, b.entries, service)
    case None =>
    case Some(id) => RestatKeeps(env, b, id, f(b.entries[id]), {});
  }

  lemma DropCollisionKeeps(env: Env, b: Book, id: int)
    requires Inv(env, b, {})
    ensures Inv(env, Drop(b, id), {}) && Evolves(b, Drop(b, id))
  {
    assert |b.collisions - {id}| <= |b.collisions|;
  }

  lemma ResolveOneKeeps(env: Env, b: Book, id: int, clock: Clock)
    requires Inv(env, b, {})
    ensures Inv(env, ResolveOne(env, b, id, clock), {})
    ensures Evolves(b, ResolveOne(env, b, id, clock))
  {
    hide Inv, Evolves, Good, TriedSlot, Drop;
    DropCollisionKeeps(env, b, id);
    EvolvesRefl(b);
    if id in b.entries {
      forall time ensures var g := Good(env, b, b.entries[id].service, false, time);
        Inv(env, Drop(g, id), {}) && Evolves(b, Drop(g, id))
      {
        var g := Good(env, b, b.entries[id].service, false, time);
        GoodKeeps(env, b, b.entries[id].service, false, time);
        DropCollisionKeeps(env, g, id);
        EvolvesTrans(b, g, Drop(g, id));
      }
    }
  }

  lemma {:induction false} ResolveAllKeeps(env: Env, b: Book, ids: set<int>, clock: Clock)
    requires Inv(env, b, {})
    ensures Inv(env, ResolveAll(env, b, ids, clock), {})
    ensures Evolves(b, ResolveAll(env, b, ids, clock))
    decreases |ids|
  {
    if ids != {} {
      var id := Least(ids);
      var b1 := ResolveOne(env, b, id, clock);
      ResolveOneKeeps(env, b, id, clock);
      ResolveAllKeeps(env, b1, ids - {id}, clock);
      EvolvesTrans(b, b1, ResolveAll(env, b1, ids - {id}, clock));
    }
  }

  lemma StepKeeps(env: Env, b: Book, op: Op)
    requires Inv(env, b, {})
    ensures Inv(env, Step(env, b, op), {})
    ensures Evolves(b, Step(env, b, op))
  {
    match op
    case OpAdd(addr, source, penalty, now, later, draw) => AddKeeps(env, b, addr, source, penalty, now, later, draw);
    case OpGood(service, test, time) => GoodKeeps(env, b, service, test, time);
    case OpAttempt(service, count, time) =>
      var lastGood := b.lastGood;
      TouchKeeps(env, b, service, e => Attempted(e, count, time, lastGood));
    case OpConnected(service, time) => TouchKeeps(env, b, service, e => SeenConnected(e, time));
    case OpSetServices(service, services) => TouchKeeps(env, b, service, (e: Entry) => e.(nServices := services));
    case OpGetAddr(_, _) =>
    case OpResolve(clock) => ResolveAllKeeps(env, b, b.collisions, clock);
    case OpSelect(draw) =>
      if |b.collisions| != 0 {
        DropCollisionKeeps(env, b, Kth(b.collisions, draw % |b.collisions|));
      }
  }

  // ---------- whole runs ----------

  /** Any operations at all keep the invariant, and after them no tried slot has
      become empty, no id has come back and no id has changed its address. */
  lemma {:induction false} RunKeeps(env: Env, b: Book, ops: seq<Op>)
    requires Inv(env, b, {})
    ensures Inv(env, Run(env, b, ops), {})
    ensures Evolves(b, Run(env, b, ops))
    decreases |ops|
  {
    if ops != [] {
      var b1 := Step(env, b, ops[0]);
      StepKeeps(env, b, ops[0]);
      RunKeeps(env, b1, ops[1..]);
      EvolvesTrans(b, b1, Run(env, b1, ops[1..]));
    }
  }

  lemma {:induction false} RunSplit(env: Env, b: Book, ops: seq<Op>, more: seq<Op>)
    ensures Run(env, b, ops + more) == Run(env, Run(env, b, ops), more)
    decreases |ops|
  {
    if ops == [] {
      assert [] + more == more;
    } else {
      assert (ops + more)[1..] == ops[1..] + more;
      RunSplit(env, Step(env, b, ops[0]), ops[1..], more);
    }
  }

  lemma ReachableInv(env: Env, ops: seq<Op>)
    ensures Inv(env, Run(env, EMPTY, ops), {})
  {
    RunKeeps(env, EMPTY, ops);
  }

  lemma ReachableEvolves(env: Env, ops: seq<Op>, more: seq<Op>)
    ensures Evolves(Run(env, EMPTY, ops), Run(env, EMPTY, ops + more))
  {
    ReachableInv(env, ops);
    RunKeeps(env, Run(env, EMPTY, ops), more);
    RunSplit(env, EMPTY, ops, more);
  }

  /** A pending collision always has an incumbent: the slot its challenger
      wants is occupied by a known tried address, so there is something to
      test, and the case of a collision that has gone away never arises. */
  lemma CollisionHasIncumbent(env: Env, ops: seq<Op>, id: int)
    ensures var b := Run(env, EMPTY, ops);
            && |b.collisions| <= TRIED_COLLISION_SIZE
            && (id in b.collisions && id in b.entries ==>
                  var ts := TriedSlot(env, b.entries[id].service);
                  ts in b.triedTab && b.triedTab[ts] in b.entries)
  {
    ReachableInv(env, ops);
  }
}
