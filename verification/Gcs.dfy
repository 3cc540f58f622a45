/** Golomb-coded sets (BIP 158): sorted hashes as Golomb-Rice coded differences. */
module Gcs {
  import opened Options
  import opened Nonlinear
  import opened Limbs
  import opened BitStream
  import opened Serialize

  // ---------- one code ----------

  /** The quotient in unary, a zero, and the remainder in p bits. */
  ghost function Rice(x: nat, p: nat): seq<bool> {
    Trues(Quotient(x, Pow2(p))) + [false] + BitsOf(x, p)
  }

  /** How many ones the bits start with. */
  ghost function Unary(bits: seq<bool>): (r: nat)
    ensures r <= |bits| && bits[..r] == Trues(r) && (r < |bits| ==> !bits[r])
  {
    if bits == [] || !bits[0] then 0
    else
      var n := Unary(bits[1..]);
      assert bits[..n + 1] == [bits[0]] + bits[1..][..n];
      n + 1
  }

  ghost predicate HasCode(bits: seq<bool>, p: nat) { Unary(bits) + 1 + p <= |bits| }

  /** The number read, in 64 bits. */
  ghost function CodeOf(bits: seq<bool>, p: nat): int
    requires HasCode(bits, p)
  {
    var u := Unary(bits);
    (u * Pow2(p) + NumberOf(bits[u + 1..u + 1 + p])) % Pow2(64)
  }

  ghost function AfterCode(bits: seq<bool>, p: nat): seq<bool>
    requires HasCode(bits, p)
  {
    bits[Unary(bits) + 1 + p..]
  }

  lemma UnaryIs(n: nat, rest: seq<bool>)
    ensures Unary(Trues(n) + [false] + rest) == n
  {
    var bits := Trues(n) + [false] + rest;
    assert !bits[n];
    assert forall i :: 0 <= i < Unary(bits) ==> bits[..Unary(bits)][i];
    assert forall i :: 0 <= i < n ==> bits[i];
  }

  /** Decoding undoes encoding, whatever follows. */
  lemma ReadsBack(x: nat, p: nat, rest: seq<bool>)
    requires x < Pow2(64)
    ensures HasCode(Rice(x, p) + rest, p)
    ensures CodeOf(Rice(x, p) + rest, p) == x && AfterCode(Rice(x, p) + rest, p) == rest
  {
    hide Pow2, BitsOf, Unary;
    var q := Quotient(x, Pow2(p));
    var bits := Rice(x, p) + rest;
    assert bits == Trues(q) + [false] + (BitsOf(x, p) + rest);
    UnaryIs(q, BitsOf(x, p) + rest);
    assert bits[q + 1..q + 1 + p] == BitsOf(x, p);
    DivModFacts(x, Pow2(p));
    BitsLow(x, p, p);
    NumberBits(x % Pow2(p), p);
    DivUnique(x, Pow2(64), 0, x);
  }

  method GolombRiceEncode(w: BitStreamWriter, p: nat, x: nat)
    requires w.Valid() && p < 64 && x < Pow2(64)
    modifies w
    ensures w.Valid() && w.Written() == old(w.Written()) + Rice(x, p)
  {
    hide Pow2, BitsOf, ByteBits, Trues, Falses, Rice, Quotient, BitStreamWriter.Valid, BitStreamWriter.Written;
    QuotientIs(x, p);
    var q: nat := x / Pow2(p);
    ghost var all := q;
    ghost var start := w.Written();
    assert start + Trues(0) == start;
    while q > 0
      invariant w.Valid() && q <= all && w.Written() == start + Trues(all - q)
    {
      var nbits := if q <= 64 then q else 64;
      BitsOnes(64, nbits);
      var _ := w.Write(Pow2(64) - 1, nbits);
      TruesJoin(all - q, nbits);
      q := q - nbits;
    }
    BitsZero(1);
    var _ := w.Write(0, 1);
    var _ := w.Write(x, p);
    RiceParts(start, x, p);
  }

  lemma RiceParts(start: seq<bool>, x: nat, p: nat)
    ensures start + Trues(Quotient(x, Pow2(p))) + Falses(1) + BitsOf(x, p) == start + Rice(x, p)
  {
    hide BitsOf, Pow2, Quotient;
  }

  lemma TruesJoin(a: nat, b: nat)
    ensures Trues(a) + Trues(b) == Trues(a + b)
  {
  }

  lemma QuotientIs(x: nat, p: nat)
    ensures x / Pow2(p) == Quotient(x, Pow2(p))
  {
  }

  method GolombRiceDecode(reader: BitStreamReader, p: nat) returns (r: Option<nat>)
    requires reader.Valid() && reader.offset > 0 && p < 64
    modifies reader
    ensures reader.Valid() && reader.offset > 0
    ensures r.Some? <==> HasCode(old(reader.Remaining()), p)
    ensures r.Some? ==> && r.value == CodeOf(old(reader.Remaining()), p)
                        && reader.Remaining() == AfterCode(old(reader.Remaining()), p)
  {
    hide Pow2, BitsOf, Unary, BitStreamReader.Remaining, CodeOf, AfterCode;
    ghost var start := reader.Remaining();
    var q: nat := 0;
    while true
      invariant reader.Valid() && reader.offset > 0 && start == Trues(q) + reader.Remaining()
      decreases |reader.Remaining()|
    {
      ghost var before := reader.Remaining();
      var bit := reader.Read(1);
      if bit == None {
        AllOnes(q);
        return None;
      }
      OneBit(bit.value);
      if bit.value == 0 { break; }
      assert before == [true] + reader.Remaining();
      assert Trues(q) + [true] == Trues(q + 1);
      q := q + 1;
    }
    ghost var body := reader.Remaining();
    assert start == Trues(q) + [false] + body;
    UnaryIs(q, body);
    var rem := reader.Read(p);
    if rem == None { return None; }
    CodeParts(start, p, q, rem.value, reader.Remaining());
    WrapSum(q, Pow2(p), rem.value, Pow2(64));
    r := Some((q * Pow2(p) % Pow2(64) + rem.value) % Pow2(64));
  }

  lemma AllOnes(n: nat)
    ensures Unary(Trues(n)) == n
  {
  }

  lemma OneBit(v: nat)
    requires v < Pow2(1)
    ensures BitsOf(v, 1) == [v == 1] && v <= 1
  {
    assert BitsOf(v / 2, 0) == [];
  }

  lemma CodeParts(bits: seq<bool>, p: nat, q: nat, r: nat, rest: seq<bool>)
    requires bits == Trues(q) + [false] + (BitsOf(r, p) + rest) && r < Pow2(p)
    ensures HasCode(bits, p) && AfterCode(bits, p) == rest
    ensures CodeOf(bits, p) == (q * Pow2(p) + r) % Pow2(64)
  {
    hide Pow2, BitsOf, Unary, NumberOf, Trues;
    UnaryIs(q, BitsOf(r, p) + rest);
    assert bits[q + 1..q + 1 + p] == BitsOf(r, p);
    NumberBits(r, p);
  }

  /** (q << p) + r in 64 bits. */
  lemma WrapSum(q: nat, u: nat, r: nat, m: nat)
    requires m > 0
    ensures q * u >= 0 && 0 <= (q * u % m + r) % m == (q * u + r) % m
  {
    MulMono(u, 0, q);
    var a := q * u;
    DivModFacts(a, m);
    DivModFacts(a % m + r, m);
    MulDist(m, a / m, (a % m + r) / m);
    DivUnique(a + r, m, a / m + (a % m + r) / m, (a % m + r) % m);
  }

  // ---------- a list of values ----------

  ghost predicate Sorted(s: seq<nat>) {
    forall i, j :: 0 <= i < j < |s| ==> s[i] <= s[j]
  }

  /** Values in order, each within 64 bits and none below `last`. */
  ghost predicate Ascending(values: seq<nat>, last: nat) {
    && Sorted(values) && (forall i :: 0 <= i < |values| ==> last <= values[i] < Pow2(64))
  }

  /** The codes of the differences between neighbours. */
  ghost function Deltas(values: seq<nat>, last: nat, p: nat): seq<bool>
    requires Ascending(values, last)
  {
    if values == [] then [] else Rice(values[0] - last, p) + Deltas(values[1..], values[0], p)
  }

  lemma {:induction false} DeltasSnoc(values: seq<nat>, v: nat, last: nat, p: nat)
    requires Ascending(values + [v], last)
    ensures Ascending(values, last)
    ensures var end := if values == [] then last else values[|values| - 1];
            end <= v && Deltas(values + [v], last, p) == Deltas(values, last, p) + Rice(v - end, p)
    decreases |values|
  {
    hide Rice, Pow2, Ascending;
    var all := values + [v];
    AscendingFront(values, v, last);
    if values == [] {
      assert all[1..] == [];
      assert Rice(v - last, p) + [] == Rice(v - last, p);
    } else {
      assert all[1..] == values[1..] + [v];
      AscendingTail(all, last);
      AscendingTail(values, last);
      DeltasSnoc(values[1..], v, values[0], p);
    }
  }

  lemma AscendingFront(values: seq<nat>, v: nat, last: nat)
    requires Ascending(values + [v], last)
    ensures Ascending(values, last)
    ensures (if values == [] then last else values[|values| - 1]) <= v
  {
    hide Pow2;
    var all := values + [v];
    assert forall i :: 0 <= i < |values| ==> values[i] == all[i];
    assert all[|values|] == v;
  }

  lemma AscendingTail(values: seq<nat>, last: nat)
    requires Ascending(values, last) && values != []
    ensures last <= values[0] < Pow2(64) && Ascending(values[1..], values[0])
  {
    hide Pow2;
  }

  // ---------- hashing into range ----------

  /** The upper 64 bits of x * n, from products of 32-bit halves. */
  function MapIntoRange(x: nat, n: nat): int {
    var ac, ad := (x / BASE) * (n / BASE), (x / BASE) * (n % BASE);
    var bc, bd := (x % BASE) * (n / BASE), (x % BASE) * (n % BASE);
    var mid34 := bd / BASE + bc % BASE + ad % BASE;
    ac + bc / BASE + ad / BASE + mid34 / BASE
  }

  lemma HighHalf(x: nat, n: nat)
    ensures MapIntoRange(x, n) == x * n / (BASE * BASE)
  {
    var xh, xl, nh, nl := x / BASE, x % BASE, n / BASE, n % BASE;
    var ac, ad, bc, bd := xh * nh, xh * nl, xl * nh, xl * nl;
    assert x * n == BASE * BASE * ac + BASE * (ad + bc) + bd by {
      Foil(xh, xl, nh, nl);
    }
    var mid := bd / BASE + bc % BASE + ad % BASE;
    DivUnique(x * n, BASE * BASE, ac + bc / BASE + ad / BASE + mid / BASE, BASE * (mid % BASE) + bd % BASE);
  }

  lemma Foil(xh: nat, xl: nat, nh: nat, nl: nat)
    ensures (BASE * xh + xl) * (BASE * nh + nl)
         == BASE * BASE * (xh * nh) + BASE * (xh * nl + xl * nh) + xl * nl
  {
    MulDist(BASE * nh + nl, BASE * xh, xl);
    MulDist(BASE * xh, BASE * nh, nl);
    MulDist(xl, BASE * nh, nl);
    MulAssoc(BASE * xh, BASE, nh);
    MulAssoc(BASE, xh, nh);
    MulAssoc(BASE, xh, nl);
    MulAssoc(xl, BASE, nh);
  }

  /** No step of the split product needs more than 64 bits. */
  lemma HalvesFit(x: nat, n: nat)
    requires x < BASE * BASE && n < BASE * BASE
    ensures 0 <= (x / BASE) * (n / BASE) < BASE * BASE && 0 <= (x / BASE) * (n % BASE) < BASE * BASE
    ensures 0 <= (x % BASE) * (n / BASE) < BASE * BASE && 0 <= (x % BASE) * (n % BASE) < BASE * BASE
    ensures MapIntoRange(x, n) < BASE * BASE && (n > 0 ==> MapIntoRange(x, n) < n)
  {
    ProductFits(x / BASE, n / BASE);
    ProductFits(x / BASE, n % BASE);
    ProductFits(x % BASE, n / BASE);
    ProductFits(x % BASE, n % BASE);
    InRange(x, n);
  }

  lemma ProductFits(a: nat, b: nat)
    requires a < BASE && b < BASE
    ensures 0 <= a * b < BASE * BASE
  {
    MulMono(a, 0, b);
    MulMono(a, b, BASE);
    MulMono(BASE, a, BASE - 1);
  }

  lemma InRange(x: nat, n: nat)
    requires x < BASE * BASE
    ensures 0 <= MapIntoRange(x, n) && (n > 0 ==> MapIntoRange(x, n) < n)
    ensures n == 0 ==> MapIntoRange(x, n) == 0
  {
    hide MapIntoRange;
    var m := BASE * BASE;
    HighHalf(x, n);
    MulMono(n, 0, x);
    DivModFacts(x * n, m);
    MulMono(n, x + 1, m);
    MulDist(n, x, 1);
  }

  type Element = seq<nat>

  /** SipHash under the filter's key; its 64-bit result is scaled to [0, f). */
  type Hash = Element -> nat

  function HashToRange(hash: Hash, f: nat, e: Element): (r: nat)
    ensures f > 0 ==> r < f
    ensures f == 0 ==> r == 0
  {
    InRange(hash(e) % (BASE * BASE), f);
    MapIntoRange(hash(e) % (BASE * BASE), f)
  }

  // ---------- the filter ----------

  datatype Filter = Filter(p: nat, m: nat, n: nat, f: nat, encoded: seq<nat>)

  /** The encoding holds these values: their count, the codes of their differences
      and fewer than eight zero bits of padding. */
  ghost predicate Holds(filter: Filter, values: seq<nat>) {
    && filter.p < 64 && filter.n == |values| <= 0xffff_ffff && Ascending(values, 0)
    && var k := |CompactSize(filter.n)|;
       && k <= |filter.encoded| && filter.encoded[..k] == CompactSize(filter.n)
       && AreBytes(filter.encoded)
       && exists pad: nat :: pad < 8 && ByteBits(filter.encoded[k..]) == Deltas(values, 0, filter.p) + Falses(pad)
  }

  ghost function Hashes(hash: Hash, f: nat, elements: seq<Element>): (r: seq<nat>)
    ensures |r| == |elements|
  {
    seq(|elements|, i requires 0 <= i < |elements| => HashToRange(hash, f, elements[i]))
  }

  /** Insert v where it keeps the order. */
  method Insert(s: seq<nat>, v: nat) returns (r: seq<nat>)
    requires Sorted(s)
    ensures Sorted(r) && multiset(r) == multiset(s) + multiset{v}
  {
    var i := |s|;
    while i > 0 && s[i - 1] > v
      invariant 0 <= i <= |s| && forall j :: i <= j < |s| ==> v < s[j]
    {
      i := i - 1;
    }
    InsertedAt(s, i, v);
    r := s[..i] + [v] + s[i..];
  }

  lemma InsertedAt(s: seq<nat>, i: nat, v: nat)
    requires Sorted(s) && i <= |s| && (forall j :: i <= j < |s| ==> v < s[j]) && (i > 0 ==> s[i - 1] <= v)
    ensures Sorted(s[..i] + [v] + s[i..]) && multiset(s[..i] + [v] + s[i..]) == multiset(s) + multiset{v}
  {
    hide Sorted;
    SortedParts(s, i);
    SortedSnoc(s[..i], v);
    SortedJoin(s[..i] + [v], s[i..]);
    OneMore(s, i, v);
  }

  lemma SortedParts(s: seq<nat>, i: nat)
    requires Sorted(s) && i <= |s|
    ensures Sorted(s[..i]) && Sorted(s[i..])
    ensures i > 0 ==> forall j :: 0 <= j < i ==> s[..i][j] <= s[i - 1]
  {
  }

  lemma OneMore(s: seq<nat>, i: nat, v: nat)
    requires i <= |s|
    ensures multiset(s[..i] + [v] + s[i..]) == multiset(s) + multiset{v}
  {
    assert s == s[..i] + s[i..];
  }

  lemma SortedSnoc(a: seq<nat>, v: nat)
    requires Sorted(a) && forall j :: 0 <= j < |a| ==> a[j] <= v
    ensures Sorted(a + [v])
  {
  }

  lemma SortedJoin(a: seq<nat>, b: seq<nat>)
    requires Sorted(a) && Sorted(b)
    requires a != [] && forall j :: 0 <= j < |b| ==> a[|a| - 1] <= b[j]
    ensures Sorted(a + b)
  {
    var r := a + b;
    forall i, j | 0 <= i < j < |r|
      ensures r[i] <= r[j]
    {
      if i < |a| <= j {
        assert a[i] <= a[|a| - 1] <= b[j - |a|];
      }
    }
  }

  /** The hashes of a set's elements, in whatever order the set lists them, sorted. */
  method BuildHashedSet(hash: Hash, f: nat, elements: seq<Element>) returns (r: seq<nat>)
    ensures Sorted(r) && multiset(r) == multiset(Hashes(hash, f, elements))
  {
    hide HashToRange;
    r := [];
    for i := 0 to |elements|
      invariant Sorted(r) && multiset(r) == multiset(Hashes(hash, f, elements)[..i])
    {
      ghost var h := Hashes(hash, f, elements);
      assert h[..i + 1] == h[..i] + [h[i]];
      r := Insert(r, HashToRange(hash, f, elements[i]));
    }
    assert Hashes(hash, f, elements)[..|elements|] == Hashes(hash, f, elements);
  }

  lemma SameMembers(r: seq<nat>, h: seq<nat>)
    requires multiset(r) == multiset(h)
    ensures |r| == |h| && forall x :: x in r <==> x in h
  {
    assert |multiset(r)| == |r| && |multiset(h)| == |h|;
    forall x
      ensures x in r <==> x in h
    {
      assert x in multiset(r) <==> x in r;
      assert x in multiset(h) <==> x in h;
    }
  }

  lemma HashesAscend(r: seq<nat>, hash: Hash, f: nat, elements: seq<Element>)
    requires Sorted(r) && multiset(r) == multiset(Hashes(hash, f, elements)) && f <= BASE * BASE
    ensures |r| == |elements| && Ascending(r, 0)
  {
    hide Pow2, HashToRange;
    var h := Hashes(hash, f, elements);
    SameMembers(r, h);
    Pow2Is64();
    forall i | 0 <= i < |r|
      ensures 0 <= r[i] < Pow2(64)
    {
      assert r[i] in h;
    }
  }

  lemma Pow2Is64()
    ensures Pow2(64) == BASE * BASE
  {
    Pow2Is32();
    Pow2Add(32, 32);
  }

  lemma CompactSizeBytes(n: nat)
    requires n <= 0xffff_ffff
    ensures AreBytes(CompactSize(n))
  {
  }

  /** Build a filter. More than 2^32 - 1 elements are refused. */
  method Build(p: nat, m: nat, hash: Hash, elements: seq<Element>) returns (r: Option<Filter>, ghost values: seq<nat>)
    requires p < 64 && m < BASE
    ensures r.Some? <==> |elements| < BASE
    ensures r.Some? ==>
              && Holds(r.value, values)
              && r.value.p == p && r.value.m == m && r.value.n == |elements| && r.value.f == |elements| * m
              && multiset(values) == multiset(Hashes(hash, r.value.f, elements))
  {
    hide Pow2, ByteBits, Rice, HashToRange, CompactSize, Hashes, BitStreamWriter.Valid, BitStreamWriter.Written;
    values := [];
    if |elements| >= BASE { return None, []; }
    var n := |elements|;
    var f := n * m;
    ProductFits(n, m);
    var hashed := BuildHashedSet(hash, f, elements);
    values := hashed;
    HashesAscend(hashed, hash, f, elements);
    CompactSizeBytes(n);
    if n == 0 {
      NoElements(p, m);
      r := Some(Filter(p, m, 0, 0, CompactSize(0)));
      assert elements == [];
      return;
    }
    var body := EncodeValues(hashed, p);
    assert (CompactSize(n) + body)[|CompactSize(n)|..] == body;
    r := Some(Filter(p, m, n, f, CompactSize(n) + body));
  }

  lemma NoElements(p: nat, m: nat)
    requires p < 64
    ensures Holds(Filter(p, m, 0, 0, CompactSize(0)), [])
  {
    assert CompactSize(0)[1..] == [];
    assert ByteBits([]) == Deltas([], 0, p) + Falses(0);
  }

  /** The codes of the differences, padded to whole bytes. */
  method EncodeValues(values: seq<nat>, p: nat) returns (out: seq<nat>)
    requires Ascending(values, 0) && p < 64
    ensures AreBytes(out)
    ensures exists pad: nat :: pad < 8 && ByteBits(out) == Deltas(values, 0, p) + Falses(pad)
  {
    hide Pow2, Rice, Ascending, BitStreamWriter.Written;
    var w := new BitStreamWriter([]);
    var last := 0;
    AscendingTake(values, 0);
    assert values[..0] == [];
    for i := 0 to |values|
      invariant w.Valid() && Ascending(values[..i], 0)
      invariant last == if i == 0 then 0 else values[i - 1]
      invariant w.Written() == Deltas(values[..i], 0, p)
    {
      AscendingTake(values, i + 1);
      assert values[..i + 1] == values[..i] + [values[i]];
      DeltasSnoc(values[..i], values[i], 0, p);
      GolombRiceEncode(w, p, values[i] - last);
      last := values[i];
    }
    assert values[..|values|] == values;
    w.Flush();
    out := w.out;
  }

  lemma AscendingTake(values: seq<nat>, i: nat)
    requires Ascending(values, 0) && i <= |values|
    ensures Ascending(values[..i], 0)
    ensures forall j :: 0 <= j < i ==> values[j] < Pow2(64)
  {
    hide Pow2;
  }

  // ---------- the values of an encoding ----------

  /** What follows n codes, if there are that many. */
  ghost function AfterCodes(bits: seq<bool>, p: nat, n: nat): Option<seq<bool>>
    decreases n
  {
    if n == 0 then Some(bits)
    else if HasCode(bits, p) then AfterCodes(AfterCode(bits, p), p, n - 1)
    else None
  }

  lemma AfterNext(bits: seq<bool>, p: nat, n: nat)
    requires n > 0
    ensures AfterCodes(bits, p, n) == if HasCode(bits, p) then AfterCodes(AfterCode(bits, p), p, n - 1) else None
  {
  }

  lemma AfterNone(bits: seq<bool>, p: nat)
    ensures AfterCodes(bits, p, 0) == Some(bits)
  {
  }

  /** The running sums of n codes, in 64 bits. */
  ghost function ValuesOf(bits: seq<bool>, p: nat, n: nat, last: nat): (r: seq<nat>)
    requires AfterCodes(bits, p, n).Some?
    ensures |r| == n
    decreases n
  {
    if n == 0 then []
    else
      DivModFacts(last + CodeOf(bits, p), Pow2(64));
      var v: nat := (last + CodeOf(bits, p)) % Pow2(64);
      [v] + ValuesOf(AfterCode(bits, p), p, n - 1, v)
  }

  ghost function CodeSum(bits: seq<bool>, p: nat, n: nat): int
    requires AfterCodes(bits, p, n).Some?
    decreases n
  {
    if n == 0 then 0 else CodeOf(bits, p) + CodeSum(AfterCode(bits, p), p, n - 1)
  }

  /** The values read are in order exactly when the codes sum to less than 2^64. */
  lemma {:induction false} OrderedIff(bits: seq<bool>, p: nat, n: nat, last: nat)
    requires AfterCodes(bits, p, n).Some? && last < Pow2(64)
    ensures CodeSum(bits, p, n) >= 0
    ensures Ascending(ValuesOf(bits, p, n, last), last) <==> last + CodeSum(bits, p, n) < Pow2(64)
    decreases n
  {
    hide Pow2, HasCode, CodeOf, AfterCode, Ascending;
    if n == 0 {
      AscendingNone(last);
    } else {
      var c, rest := CodeOf(bits, p), AfterCode(bits, p);
      CodeRange(bits, p);
      var v := ValuesOf(bits, p, n, last)[0];
      WrapOne(last, c, Pow2(64));
      OrderedIff(rest, p, n - 1, v);
      AscendingCons(v, ValuesOf(rest, p, n - 1, v), last);
    }
  }

  lemma CodeRange(bits: seq<bool>, p: nat)
    requires HasCode(bits, p)
    ensures 0 <= CodeOf(bits, p) < Pow2(64)
  {
    hide Pow2, Unary;
    DivModFacts(Unary(bits) * Pow2(p) + NumberOf(bits[Unary(bits) + 1..Unary(bits) + 1 + p]), Pow2(64));
  }

  lemma WrapOne(a: nat, b: nat, m: nat)
    requires a < m && b < m
    ensures (a + b) % m == if a + b < m then a + b else a + b - m
  {
    if a + b < m { DivUnique(a + b, m, 0, a + b); } else { DivUnique(a + b, m, 1, a + b - m); }
  }

  lemma AscendingNone(last: nat)
    ensures Ascending([], last)
  {
  }

  lemma AscendingCons(v: nat, rest: seq<nat>, last: nat)
    requires v < Pow2(64)
    ensures Ascending([v] + rest, last) <==> last <= v && Ascending(rest, v)
  {
    hide Pow2;
    var s := [v] + rest;
    if Ascending(s, last) {
      AscendingTail(s, last);
      assert s[1..] == rest;
    }
    if last <= v && Ascending(rest, v) {
      assert forall i :: 0 < i < |s| ==> s[i] == rest[i - 1];
    }
  }

  /** The sum 5 + (2^64 - 2) wraps: the values read are 5 and 3, and the pass misses
      the 3, whatever follows the codes. */
  lemma WrappedMisses(p: nat, rest: seq<bool>)
    ensures var bits := Rice(5, p) + (Rice(Pow2(64) - 2, p) + rest);
            && AfterCodes(bits, p, 2) == Some(rest)
            && ValuesOf(bits, p, 2, 0) == [5, 3]
            && Common([3], [5, 3]) && !Reaches([5, 3], 3)
  {
    hide Pow2, Rice, HasCode, CodeOf, AfterCode;
    Pow2Is64();
    var m := Pow2(64);
    var second := Rice(m - 2, p) + rest;
    ReadsBack(5, p, second);
    ReadsBack(m - 2, p, rest);
    var bits := Rice(5, p) + second;
    AfterNext(bits, p, 2);
    AfterNext(second, p, 1);
    AfterNone(rest, p);
    WrapOne(0, 5, m);
    WrapOne(5, m - 2, m);
    assert ValuesOf(rest, p, 0, 3) == [];
    assert ValuesOf(second, p, 1, 5) == [3];
    CommonOne(3, [5, 3]);
    assert [5, 3][0] == 5;
  }

  /** What every constructor leaves: if the count can be read at all, it is n and
      that many codes follow. */
  ghost predicate Usable(filter: Filter) {
    && filter.p < 64 && AreBytes(filter.encoded)
    && var count := ReadCompactSize(filter.encoded);
       count.Some? ==>
         && count.value.0 == filter.n
         && AfterCodes(ByteBits(filter.encoded[count.value.1..]), filter.p, filter.n).Some?
  }

  /** The values a filter encodes. */
  ghost function Values(filter: Filter): seq<nat>
    requires Usable(filter)
  {
    var count := ReadCompactSize(filter.encoded);
    if count == None then [] else ValuesOf(ByteBits(filter.encoded[count.value.1..]), filter.p, filter.n, 0)
  }

  lemma {:induction false} ValuesBelow(bits: seq<bool>, p: nat, n: nat, last: nat)
    requires AfterCodes(bits, p, n).Some?
    ensures forall i :: 0 <= i < n ==> ValuesOf(bits, p, n, last)[i] < Pow2(64)
    decreases n
  {
    hide Pow2, HasCode, CodeOf, AfterCode;
    if n > 0 {
      var v := ValuesOf(bits, p, n, last)[0];
      DivModFacts(last + CodeOf(bits, p), Pow2(64));
      ValuesBelow(AfterCode(bits, p), p, n - 1, v);
    }
  }

  /** Whatever bytes it was read from, a filter's values are in order exactly when
      its codes sum to less than 2^64. */
  lemma SortedIff(filter: Filter)
    requires Usable(filter) && ReadCompactSize(filter.encoded).Some?
    ensures Sorted(Values(filter)) <==>
            CodeSum(ByteBits(filter.encoded[ReadCompactSize(filter.encoded).value.1..]), filter.p, filter.n) < Pow2(64)
  {
    hide Pow2, ByteBits, ReadCompactSize, AfterCodes, ValuesOf, CodeSum, Sorted;
    var bits := ByteBits(filter.encoded[ReadCompactSize(filter.encoded).value.1..]);
    OrderedIff(bits, filter.p, filter.n, 0);
    ValuesBelow(bits, filter.p, filter.n, 0);
  }

  // ---------- matching ----------

  ghost predicate Common(x: seq<nat>, y: seq<nat>) {
    exists i, j :: 0 <= i < |x| && 0 <= j < |y| && x[i] == y[j]
  }

  /** v is one of the values and no value before it is greater. */
  ghost predicate Reaches(values: seq<nat>, v: nat) {
    exists i :: 0 <= i < |values| && PeakAt(values, i, v)
  }

  ghost predicate PeakAt(values: seq<nat>, i: nat, v: nat)
    requires i < |values|
  {
    values[i] == v && forall j :: 0 <= j < i ==> values[j] <= v
  }

  /** What a single pass over both lists can find. */
  ghost predicate Meets(hashes: seq<nat>, values: seq<nat>) {
    exists a :: 0 <= a < |hashes| && Reaches(values, hashes[a])
  }

  /** Values in order: the pass finds every common value. */
  lemma SortedMeets(hashes: seq<nat>, values: seq<nat>)
    requires Sorted(values)
    ensures Meets(hashes, values) <==> Common(hashes, values)
  {
    if Common(hashes, values) {
      var a, i :| 0 <= a < |hashes| && 0 <= i < |values| && hashes[a] == values[i];
      assert PeakAt(values, i, hashes[a]);
    }
  }

  /** No value below f is out of the pass's reach. */
  ghost predicate AllReached(values: seq<nat>, f: nat) {
    forall i :: 0 <= i < |values| && values[i] < f ==> Reaches(values, values[i])
  }

  ghost predicate AllBelow(hashes: seq<nat>, f: nat) {
    forall a :: 0 <= a < |hashes| ==> hashes[a] < f
  }

  /** Query hashes are below f. The pass finds exactly the common values of every such
      list if and only if every value below f is in its reach. */
  lemma MeetsExactIff(values: seq<nat>, f: nat)
    ensures AllReached(values, f) <==>
            forall hashes :: Sorted(hashes) && AllBelow(hashes, f) ==>
              (Meets(hashes, values) <==> Common(hashes, values))
  {
    if AllReached(values, f) {
      forall hashes | Sorted(hashes) && AllBelow(hashes, f)
        ensures Meets(hashes, values) <==> Common(hashes, values)
      {
      }
    } else {
      var i :| 0 <= i < |values| && values[i] < f && !Reaches(values, values[i]);
      var h := [values[i]];
      assert h[0] == values[i];
      assert Sorted(h) && AllBelow(h, f) && Common(h, values) && !Meets(h, values);
    }
  }

  datatype Scan = Found | Exhausted | Beyond

  /** Pass over the hashes below a value. */
  method Skip(hashes: seq<nat>, start: nat, value: nat) returns (h: nat, scan: Scan)
    requires Sorted(hashes) && start <= |hashes|
    ensures start <= h <= |hashes| && (forall i :: start <= i < h ==> hashes[i] < value)
    ensures scan == Exhausted ==> h == |hashes|
    ensures scan == Found ==> h < |hashes| && hashes[h] == value
    ensures scan == Beyond ==> forall i :: h <= i < |hashes| ==> value < hashes[i]
  {
    h := start;
    while true
      invariant start <= h <= |hashes| && forall i :: start <= i < h ==> hashes[i] < value
      decreases |hashes| - h
    {
      if h == |hashes| { return h, Exhausted; }
      if hashes[h] == value { return h, Found; }
      if hashes[h] > value { return h, Beyond; }
      h := h + 1;
    }
  }

  ghost predicate ReachedBy(values: seq<nat>, n: nat, v: nat)
    requires n <= |values|
  {
    exists i :: 0 <= i < n && PeakAt(values, i, v)
  }

  /** After n values the pass stands at h: what it left behind is below one of them,
      what is ahead is above them all, and nothing matched. */
  ghost predicate Passed(hashes: seq<nat>, values: seq<nat>, n: nat, h: nat)
    requires n <= |values|
  {
    && h <= |hashes|
    && (forall a :: 0 <= a < h ==> exists b :: 0 <= b < n && hashes[a] < values[b])
    && (forall a, b :: h <= a < |hashes| && 0 <= b < n ==> values[b] < hashes[a])
    && (forall a :: 0 <= a < |hashes| ==> !ReachedBy(values, n, hashes[a]))
  }

  lemma PassedMore(hashes: seq<nat>, values: seq<nat>, n: nat, start: nat, h: nat)
    requires n < |values| && Passed(hashes, values, n, start) && start <= h <= |hashes|
    requires forall a :: start <= a < h ==> hashes[a] < values[n]
    requires forall a :: h <= a < |hashes| ==> values[n] < hashes[a]
    ensures Passed(hashes, values, n + 1, h)
  {
    forall a | 0 <= a < h
      ensures exists b :: 0 <= b < n + 1 && hashes[a] < values[b]
    {
      if a >= start {
        assert hashes[a] < values[n];
      } else {
        var b :| 0 <= b < n && hashes[a] < values[b];
      }
    }
    forall a | 0 <= a < |hashes|
      ensures !ReachedBy(values, n + 1, hashes[a])
    {
      assert !ReachedBy(values, n, hashes[a]);
      assert !PeakAt(values, n, hashes[a]);
    }
  }

  /** With no hash left ahead, the values to come cannot match either. */
  lemma PassedAll(hashes: seq<nat>, values: seq<nat>, n: nat, h: nat)
    requires n <= |values| && Passed(hashes, values, n, h) && (h == |hashes| || n == |values|)
    ensures !Meets(hashes, values)
  {
    forall a | 0 <= a < |hashes|
      ensures !Reaches(values, hashes[a])
    {
      assert !ReachedBy(values, n, hashes[a]);
    }
  }

  /** The pass stops at a hash equal to the next value. */
  lemma PassedFound(hashes: seq<nat>, values: seq<nat>, n: nat, start: nat, h: nat)
    requires n < |values| && Passed(hashes, values, n, start) && start <= h < |hashes| && hashes[h] == values[n]
    ensures Meets(hashes, values)
  {
    assert PeakAt(values, n, hashes[h]);
    assert Reaches(values, hashes[h]);
  }

  /** Merge the filter's values, decoded one at a time, with sorted hashes. A filter
      whose count is above the limit cannot be read at all. */
  method MatchInternal(filter: Filter, hashes: seq<nat>) returns (r: Option<bool>)
    requires Usable(filter) && Sorted(hashes)
    ensures r.Some? <==> ReadCompactSize(filter.encoded).Some?
    ensures r.Some? ==> (r.value <==> Meets(hashes, Values(filter)))
    ensures r.Some? && Sorted(Values(filter)) ==> (r.value <==> Common(hashes, Values(filter)))
  {
    hide Pow2, ByteBits, ReadCompactSize, Sorted, BitStreamReader.Remaining, HasCode, CodeOf, AfterCode, AfterCodes,
      ValuesOf, Meets, Common, Passed;
    ghost var values := Values(filter);
    if Sorted(values) { SortedMeets(hashes, values); }
    var count := ReadCompactSize(filter.encoded);
    if count == None { return None; }
    var reader := new BitStreamReader(filter.encoded, count.value.1);
    var value: nat := 0;
    var h: nat := 0;
    NonePassed(hashes, values);
    for i := 0 to filter.n
      invariant reader.Valid() && reader.offset > 0
      invariant AfterCodes(reader.Remaining(), filter.p, filter.n - i).Some?
      invariant i <= |values| && values[i..] == ValuesOf(reader.Remaining(), filter.p, filter.n - i, value)
      invariant h <= |hashes| && Passed(hashes, values, i, h)
    {
      value := NextValue(reader, filter.p, value, filter.n - i);
      assert values[i..][0] == values[i] && values[i..][1..] == values[i + 1..];
      ghost var start := h;
      var scan;
      h, scan := Skip(hashes, h, value);
      if scan == Found {
        PassedFound(hashes, values, i, start, h);
        return Some(true);
      }
      PassedMore(hashes, values, i, start, h);
      if scan == Exhausted {
        PassedAll(hashes, values, i + 1, h);
        return Some(false);
      }
    }
    PassedAll(hashes, values, filter.n, h);
    return Some(false);
  }

  lemma NonePassed(hashes: seq<nat>, values: seq<nat>)
    ensures Passed(hashes, values, 0, 0) && values[0..] == values
  {
  }

  /** value += GolombRiceDecode(bitreader, P), in 64 bits. */
  method NextValue(reader: BitStreamReader, p: nat, value: nat, ghost n: nat) returns (next: nat)
    requires reader.Valid() && reader.offset > 0 && p < 64 && n > 0
    requires AfterCodes(reader.Remaining(), p, n).Some?
    modifies reader
    ensures reader.Valid() && reader.offset > 0
    ensures AfterCodes(reader.Remaining(), p, n - 1).Some?
    ensures ValuesOf(old(reader.Remaining()), p, n, value) == [next] + ValuesOf(reader.Remaining(), p, n - 1, next)
  {
    hide Pow2, BitStreamReader.Remaining, HasCode, CodeOf, AfterCode;
    AfterNext(reader.Remaining(), p, n);
    var delta := GolombRiceDecode(reader, p);
    DivModFacts(value + delta.value, Pow2(64));
    next := (value + delta.value) % Pow2(64);
  }

  ghost predicate SharedHash(hash: Hash, f: nat, queries: seq<Element>, values: seq<nat>) {
    exists i :: 0 <= i < |queries| && HashToRange(hash, f, queries[i]) in values
  }

  /** Some query's hash is in the pass's reach. */
  ghost predicate SharedReach(hash: Hash, f: nat, queries: seq<Element>, values: seq<nat>) {
    exists i :: 0 <= i < |queries| && Reaches(values, HashToRange(hash, f, queries[i]))
  }

  method MatchAny(filter: Filter, hash: Hash, queries: seq<Element>) returns (r: Option<bool>)
    requires Usable(filter)
    ensures r.Some? <==> ReadCompactSize(filter.encoded).Some?
    ensures r.Some? ==> (r.value <==> SharedReach(hash, filter.f, queries, Values(filter)))
    ensures r.Some? && Sorted(Values(filter)) ==> (r.value <==> SharedHash(hash, filter.f, queries, Values(filter)))
  {
    hide HashToRange, Usable, Values, Meets, Common, SharedReach, SharedHash, Sorted, ReadCompactSize;
    var hashes := BuildHashedSet(hash, filter.f, queries);
    r := MatchInternal(filter, hashes);
    ReachIff(hashes, hash, filter.f, queries, Values(filter));
    SharedIff(hashes, hash, filter.f, queries, Values(filter));
  }

  lemma ReachIff(hashes: seq<nat>, hash: Hash, f: nat, queries: seq<Element>, values: seq<nat>)
    requires multiset(hashes) == multiset(Hashes(hash, f, queries))
    ensures Meets(hashes, values) <==> SharedReach(hash, f, queries, values)
  {
    hide HashToRange, Reaches;
    var h := Hashes(hash, f, queries);
    SameMembers(hashes, h);
    if Meets(hashes, values) {
      var i :| 0 <= i < |hashes| && Reaches(values, hashes[i]);
      assert hashes[i] in h;
      var k :| 0 <= k < |h| && h[k] == hashes[i];
      assert Reaches(values, HashToRange(hash, f, queries[k]));
    }
    if SharedReach(hash, f, queries, values) {
      var k :| 0 <= k < |queries| && Reaches(values, HashToRange(hash, f, queries[k]));
      assert h[k] in hashes;
      var i :| 0 <= i < |hashes| && hashes[i] == h[k];
    }
  }

  lemma SharedIff(hashes: seq<nat>, hash: Hash, f: nat, queries: seq<Element>, values: seq<nat>)
    requires multiset(hashes) == multiset(Hashes(hash, f, queries))
    ensures Common(hashes, values) <==> SharedHash(hash, f, queries, values)
  {
    hide HashToRange;
    var h := Hashes(hash, f, queries);
    SameMembers(hashes, h);
    if Common(hashes, values) {
      var i, j :| 0 <= i < |hashes| && 0 <= j < |values| && hashes[i] == values[j];
      assert hashes[i] in h;
      var k :| 0 <= k < |h| && h[k] == hashes[i];
      assert HashToRange(hash, f, queries[k]) in values;
    }
    if SharedHash(hash, f, queries, values) {
      var k :| 0 <= k < |queries| && HashToRange(hash, f, queries[k]) in values;
      assert h[k] in hashes;
      var i :| 0 <= i < |hashes| && hashes[i] == h[k];
      var j :| 0 <= j < |values| && values[j] == h[k];
    }
  }

  method Match(filter: Filter, hash: Hash, element: Element) returns (r: Option<bool>)
    requires Usable(filter)
    ensures r.Some? <==> ReadCompactSize(filter.encoded).Some?
    ensures r.Some? ==> (r.value <==> Reaches(Values(filter), HashToRange(hash, filter.f, element)))
    ensures r.Some? && Sorted(Values(filter)) ==> (r.value <==> HashToRange(hash, filter.f, element) in Values(filter))
  {
    hide HashToRange, Usable, Values, ReadCompactSize, Reaches;
    var query := HashToRange(hash, filter.f, element);
    r := MatchInternal(filter, [query]);
    CommonOne(query, Values(filter));
  }

  lemma CommonOne(v: nat, values: seq<nat>)
    ensures Common([v], values) <==> v in values
    ensures Meets([v], values) <==> Reaches(values, v)
  {
    hide Reaches;
    assert [v][0] == v;
    if v in values {
      var j :| 0 <= j < |values| && values[j] == v;
      assert [v][0] == values[j];
    }
  }

  /** Some query and some element hash to the same value. */
  ghost predicate Collide(hash: Hash, f: nat, queries: seq<Element>, elements: seq<Element>) {
    exists i, j :: 0 <= i < |queries| && 0 <= j < |elements|
      && HashToRange(hash, f, queries[i]) == HashToRange(hash, f, elements[j])
  }

  /** End to end: a filter built from a set matches a query set exactly when two
      hashes coincide, so it never misses a common element. It answers exactly when
      the set has at most MAX_SIZE elements. */
  method BuildThenMatch(p: nat, m: nat, hash: Hash, elements: seq<Element>, queries: seq<Element>)
    returns (r: Option<bool>)
    requires p < 64 && m < BASE
    ensures r.Some? <==> |elements| <= MAX_SIZE
    ensures r.Some? ==> (r.value <==> Collide(hash, |elements| * m, queries, elements))
    ensures r.Some? && (exists q :: q in queries && q in elements) ==> r.value
  {
    hide HashToRange, Holds, Usable, Values, ReadCompactSize, SharedReach, SharedHash, Sorted, Collide, Hashes;
    var filter, values := Build(p, m, hash, elements);
    if filter == None { return None; }
    EncodingReads(filter.value, values);
    r := MatchAny(filter.value, hash, queries);
    CollideIff(hash, filter.value.f, queries, elements, values);
  }

  lemma CollideIff(hash: Hash, f: nat, queries: seq<Element>, elements: seq<Element>, values: seq<nat>)
    requires multiset(values) == multiset(Hashes(hash, f, elements))
    ensures SharedHash(hash, f, queries, values) <==> Collide(hash, f, queries, elements)
    ensures (exists q :: q in queries && q in elements) ==> Collide(hash, f, queries, elements)
  {
    hide HashToRange;
    SameMembers(values, Hashes(hash, f, elements));
    assert forall j :: 0 <= j < |elements| ==> Hashes(hash, f, elements)[j] == HashToRange(hash, f, elements[j]);
  }

  // ---------- reading a filter from its encoding ----------

  /** The count is readable, that many codes follow, and no whole byte is left over. */
  ghost predicate Readable(encoded: seq<nat>, p: nat) {
    var count := ReadCompactSize(encoded);
    && count.Some?
    && var rest := AfterCodes(ByteBits(encoded[count.value.1..]), p, count.value.0);
       rest.Some? && |rest.value| < 8
  }

  method FromEncoded(p: nat, m: nat, encoded: seq<nat>) returns (r: Option<Filter>)
    requires p < 64 && AreBytes(encoded)
    ensures r.Some? <==> Readable(encoded, p)
    ensures r.Some? ==> && Usable(r.value) && r.value.p == p && r.value.m == m && r.value.encoded == encoded
                        && r.value.n == ReadCompactSize(encoded).value.0 && r.value.f == r.value.n * m
  {
    hide ByteBits, ReadCompactSize, HasCode, CodeOf, AfterCode, AfterCodes, BitsOf;
    var count := ReadCompactSize(encoded);
    if count == None { return None; }
    var n := count.value.0;
    var reader := new BitStreamReader(encoded, count.value.1);
    ghost var bits := reader.Remaining();
    for i := 0 to n
      invariant reader.Valid() && reader.offset > 0
      invariant AfterCodes(bits, p, n) == AfterCodes(reader.Remaining(), p, n - i)
    {
      AfterNext(reader.Remaining(), p, n - i);
      var delta := GolombRiceDecode(reader, p);
      if delta == None { return None; }
    }
    AfterNone(reader.Remaining(), p);
    if reader.pos != |reader.data| { return None; }
    MulMono(n, 0, m);
    r := Some(Filter(p, m, n, n * m, encoded));
  }

  lemma {:induction false} AfterDeltas(values: seq<nat>, last: nat, p: nat, rest: seq<bool>)
    requires Ascending(values, last)
    ensures AfterCodes(Deltas(values, last, p) + rest, p, |values|) == Some(rest)
    ensures ValuesOf(Deltas(values, last, p) + rest, p, |values|, last) == values
    decreases |values|
  {
    hide Rice, Pow2, Ascending, HasCode, CodeOf, AfterCode;
    if values == [] {
      assert [] + rest == rest;
    } else {
      AscendingTail(values, last);
      var more := Deltas(values[1..], values[0], p) + rest;
      assert Deltas(values, last, p) + rest == Rice(values[0] - last, p) + more;
      ReadsBack(values[0] - last, p, more);
      DivUnique(values[0], Pow2(64), 0, values[0]);
      AfterDeltas(values[1..], values[0], p, rest);
    }
  }

  lemma AscendingSorted(values: seq<nat>, last: nat)
    requires Ascending(values, last)
    ensures Sorted(values)
  {
    hide Pow2, Sorted;
  }

  /** What a filter encodes to can be read, exactly up to the limit, and gives the filter back. */
  lemma EncodingReads(filter: Filter, values: seq<nat>)
    requires Holds(filter, values)
    ensures Readable(filter.encoded, filter.p) <==> filter.n <= MAX_SIZE
    ensures filter.n <= MAX_SIZE ==> ReadCompactSize(filter.encoded).value.0 == filter.n
    ensures ReadCompactSize(filter.encoded).Some? <==> filter.n <= MAX_SIZE
    ensures Usable(filter) && (filter.n <= MAX_SIZE ==> Values(filter) == values) && Sorted(values)
  {
    hide ReadCompactSize, CompactSize, ByteBits, Ascending, Deltas, AfterCodes, ValuesOf, Pow2, Falses, Sorted;
    AscendingSorted(values, 0);
    var k := |CompactSize(filter.n)|;
    assert filter.encoded == CompactSize(filter.n) + filter.encoded[k..];
    CountReadsBack(filter.n, filter.encoded[k..]);
    var pad: nat :| pad < 8 && ByteBits(filter.encoded[k..]) == Deltas(values, 0, filter.p) + Falses(pad);
    AfterDeltas(values, 0, filter.p, Falses(pad));
  }

  /** Bytes that are accepted as a filter and whose value 3 no query finds. */
  method WrappedExample(p: nat, m: nat, hash: Hash, element: Element) returns (f: Option<Filter>, r: Option<bool>)
    requires p < 64 && HashToRange(hash, 2 * m, element) == 3
    ensures f.Some? && Usable(f.value) && Values(f.value) == [5, 3] && r == Some(false)
  {
    hide Pow2, ByteBits, Rice, HashToRange, ReadCompactSize, CompactSize,
      BitStreamWriter.Valid, BitStreamWriter.Written,
      AfterCodes, ValuesOf, Reaches, Sorted, Falses;
    Pow2Is64();
    var w := new BitStreamWriter([]);
    assert ByteBits([]) == [] by { NoBytes(); }
    GolombRiceEncode(w, p, 5);
    GolombRiceEncode(w, p, Pow2(64) - 2);
    assert w.Written() == Rice(5, p) + Rice(Pow2(64) - 2, p);
    w.Flush();
    var encoded := CompactSize(2) + w.out;
    CompactSizeBytes(2);
    CountReadsBack(2, w.out);
    ghost var pad := Falses(|ByteBits(w.out)| - |Rice(5, p) + Rice(Pow2(64) - 2, p)|);
    assert ByteBits(w.out) == Rice(5, p) + (Rice(Pow2(64) - 2, p) + pad);
    assert encoded[|CompactSize(2)|..] == w.out;
    WrappedMisses(p, pad);
    WriterBytes(w);
    f := FromEncoded(p, m, encoded);
    r := Match(f.value, hash, element);
  }

  lemma NoBytes()
    ensures ByteBits([]) == []
  {
  }

  lemma WriterBytes(w: BitStreamWriter)
    requires w.Valid()
    ensures AreBytes(w.out)
  {
  }
}
