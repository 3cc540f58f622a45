/** The rolling Bloom filter: two bits per cell, the label of the generation
    that last wrote it, packed in pairs of 64-bit words. */
module RollingBloom {
  import opened Nonlinear

  type Key = seq<bv8>

  // ---------- words ----------

  function At(w: bv64, c: bv64): bv64
    requires c < 64
  {
    (w >> c) & 1
  }

  predicate Bit(w: bv64, c: bv64)
    requires c < 64
  {
    At(w, c) != 0
  }

  function And(x: bv64, y: bv64): bv64 { x & y }
  function Or(x: bv64, y: bv64): bv64 { x | y }
  function Xor(x: bv64, y: bv64): bv64 { x ^ y }
  function Not(x: bv64): bv64 { !x }
  function Fill(g: bv64): bv64 { 0 - g }
  function Shl(v: bv64, b: bv64): bv64
    requires b < 64
  {
    v << b
  }

  lemma AtAnd(x: bv64, y: bv64, c: bv64)
    requires c < 64
    ensures At(x & y, c) == At(x, c) & At(y, c)
  {
  }

  lemma AtOr(x: bv64, y: bv64, c: bv64)
    requires c < 64
    ensures At(x | y, c) == At(x, c) | At(y, c)
  {
  }

  lemma AtXor(x: bv64, y: bv64, c: bv64)
    requires c < 64
    ensures At(x ^ y, c) == At(x, c) ^ At(y, c)
  {
  }

  lemma AtSmall(x: bv64, c: bv64)
    requires c < 64
    ensures At(x, c) == 0 || At(x, c) == 1
  {
  }

  lemma BitAnd(x: bv64, y: bv64, c: bv64)
    requires c < 64
    ensures Bit(And(x, y), c) <==> Bit(x, c) && Bit(y, c)
  {
    hide At;
    AtAnd(x, y, c);
    AtSmall(x, c);
    AtSmall(y, c);
  }

  lemma BitOr(x: bv64, y: bv64, c: bv64)
    requires c < 64
    ensures Bit(Or(x, y), c) <==> Bit(x, c) || Bit(y, c)
  {
    hide At;
    AtOr(x, y, c);
    AtSmall(x, c);
    AtSmall(y, c);
  }

  lemma BitXor(x: bv64, y: bv64, c: bv64)
    requires c < 64
    ensures Bit(Xor(x, y), c) <==> Bit(x, c) != Bit(y, c)
  {
    hide At;
    AtXor(x, y, c);
    AtSmall(x, c);
    AtSmall(y, c);
  }

  lemma BitNot(x: bv64, c: bv64)
    requires c < 64
    ensures Bit(Not(x), c) <==> !Bit(x, c)
  {
  }

  lemma BitShl(v: bv64, b: bv64, c: bv64)
    requires b < 64 && c < 64 && (v == 0 || v == 1)
    ensures Bit(Shl(v, b), c) <==> b == c && v == 1
  {
  }

  lemma BitFill(g: bv64, c: bv64)
    requires c < 64 && (g == 0 || g == 1)
    ensures Bit(Fill(g), c) <==> g == 1
  {
  }

  function PutBit(w: bv64, b: bv64, v: bv64): bv64
    requires b < 64
  {
    Or(And(w, Not(Shl(1, b))), Shl(v, b))
  }

  lemma PutGet(w: bv64, b: bv64, v: bv64, c: bv64)
    requires b < 64 && c < 64 && (v == 0 || v == 1)
    ensures Bit(PutBit(w, b, v), c) <==> if c == b then v == 1 else Bit(w, c)
  {
    hide Bit, And, Or, Not, Shl;
    BitOr(And(w, Not(Shl(1, b))), Shl(v, b), c);
    BitAnd(w, Not(Shl(1, b)), c);
    BitNot(Shl(1, b), c);
    BitShl(1, b, c);
    BitShl(v, b, c);
  }

  /** The bits to keep when the generation with these two label bits is wiped. */
  function KeepMask(p1: bv64, p2: bv64, g1: bv64, g2: bv64): bv64 {
    Or(Xor(p1, Fill(g1)), Xor(p2, Fill(g2)))
  }

  lemma WipeGet(p1: bv64, p2: bv64, g1: bv64, g2: bv64, c: bv64)
    requires c < 64 && (g1 == 0 || g1 == 1) && (g2 == 0 || g2 == 1)
    ensures var hit := Bit(p1, c) == (g1 == 1) && Bit(p2, c) == (g2 == 1);
            && (Bit(And(p1, KeepMask(p1, p2, g1, g2)), c) <==> !hit && Bit(p1, c))
            && (Bit(And(p2, KeepMask(p1, p2, g1, g2)), c) <==> !hit && Bit(p2, c))
  {
    hide Bit, And, Or, Xor, Fill;
    var mask := KeepMask(p1, p2, g1, g2);
    BitAnd(p1, mask, c);
    BitAnd(p2, mask, c);
    BitOr(Xor(p1, Fill(g1)), Xor(p2, Fill(g2)), c);
    BitXor(p1, Fill(g1), c);
    BitXor(p2, Fill(g2), c);
    BitFill(g1, c);
    BitFill(g2, c);
  }

  // ---------- cells ----------

  function LowBit(g: nat): bv64 { if g % 2 == 1 then 1 else 0 }
  function HighBit(g: nat): bv64 { if g / 2 == 1 then 1 else 0 }

  /** The label in cell `c` of word pair `w`; 0 if it is unset. */
  ghost function Cell(data: seq<bv64>, w: nat, c: bv64): (g: nat)
    requires 2 * w + 1 < |data| && c < 64
    ensures g <= 3
  {
    (if Bit(data[2 * w], c) then 1 else 0) + (if Bit(data[2 * w + 1], c) then 2 else 0)
  }

  function PutCell(data: seq<bv64>, w: nat, c: bv64, g: nat): (r: seq<bv64>)
    requires 2 * w + 1 < |data| && c < 64
    ensures |r| == |data|
  {
    data[2 * w := PutBit(data[2 * w], c, LowBit(g))][2 * w + 1 := PutBit(data[2 * w + 1], c, HighBit(g))]
  }

  lemma PutCellGet(data: seq<bv64>, w: nat, c: bv64, g: nat, w': nat, c': bv64)
    requires 2 * w + 1 < |data| && 2 * w' + 1 < |data| && c < 64 && c' < 64 && g <= 3
    ensures Cell(PutCell(data, w, c, g), w', c') == if w' == w && c' == c then g else Cell(data, w', c')
  {
    hide Bit, PutBit;
    PutGet(data[2 * w], c, LowBit(g), c');
    PutGet(data[2 * w + 1], c, HighBit(g), c');
  }

  function WipePair(data: seq<bv64>, w: nat, g: nat): (r: seq<bv64>)
    requires 2 * w + 1 < |data|
    ensures |r| == |data|
  {
    var p1, p2 := data[2 * w], data[2 * w + 1];
    var mask := KeepMask(p1, p2, LowBit(g), HighBit(g));
    data[2 * w := And(p1, mask)][2 * w + 1 := And(p2, mask)]
  }

  lemma WipePairGet(data: seq<bv64>, w: nat, g: nat, w': nat, c': bv64)
    requires 2 * w + 1 < |data| && 2 * w' + 1 < |data| && c' < 64 && 1 <= g <= 3
    ensures Cell(WipePair(data, w, g), w', c') ==
            if w' == w && Cell(data, w', c') == g then 0 else Cell(data, w', c')
  {
    hide Bit, And, KeepMask;
    WipeGet(data[2 * w], data[2 * w + 1], LowBit(g), HighBit(g), c');
  }

  // ---------- where a key is filed ----------

  /** A hash for each index and key; the filter's tweak belongs to it. */
  type Hash = (nat, Key) -> bv32

  function FastMod(x: nat, n: nat): (r: nat)
    requires x < TWO32 && n > 0
    ensures r < n
  {
    ScaledBelow(x, n);
    x * n / TWO32
  }

  function Value(h: bv32): (r: nat)
    ensures r < TWO32
  {
    h as nat
  }

  function BitIndex(h: bv32): (r: bv64)
    ensures r < 64
  {
    (h & 0x3f) as bv64
  }

  datatype Spot = Spot(w: nat, c: bv64)

  /** The position with its lowest bit ignored picks the word pair, the low six
      bits of the hash pick the bit. */
  function SpotOf(hash: Hash, key: Key, n: nat, size: nat): (s: Spot)
    requires size > 0 && size % 2 == 0
    ensures 2 * s.w + 1 < size && s.c < 64
  {
    Spot(FastMod(Value(hash(n, key)), size) / 2, BitIndex(hash(n, key)))
  }

  ghost predicate Files(hash: Hash, nHashFuncs: nat, key: Key, size: nat, s: Spot)
    requires size > 0 && size % 2 == 0
  {
    exists n :: 0 <= n < nHashFuncs && SpotOf(hash, key, n, size) == s
  }

  // ---------- generations ----------

  function Next(g: nat): nat { if g >= 3 then 1 else g + 1 }
  function Before(g: nat): nat { if g <= 1 then 3 else g - 1 }

  /** All cells of these keys carry one of these labels. */
  ghost predicate Carry(hash: Hash, k: nat, data: seq<bv64>, keys: seq<Key>, labels: set<nat>)
    requires |data| > 0 && |data| % 2 == 0
  {
    forall key, n :: key in keys && 0 <= n < k ==>
      Cell(data, SpotOf(hash, key, n, |data|).w, SpotOf(hash, key, n, |data|).c) in labels
  }

  /** The keys of the current generation carry its label; those of the one
      before may have been overwritten by it, and those of the one before that
      by either. */
  ghost predicate Recent(hash: Hash, k: nat, data: seq<bv64>, g: nat,
                         cur: seq<Key>, prev: seq<Key>, prev2: seq<Key>)
    requires |data| > 0 && |data| % 2 == 0
  {
    Carry(hash, k, data, cur, {g}) && Carry(hash, k, data, prev, {g, Before(g)})
    && Carry(hash, k, data, prev2, {1, 2, 3})
  }

  ghost predicate Wiped(data: seq<bv64>, data': seq<bv64>, g: nat) {
    && |data| == |data'|
    && forall w: nat, c: bv64 :: 2 * w + 1 < |data| && c < 64 ==>
         Cell(data', w, c) == if Cell(data, w, c) == g then 0 else Cell(data, w, c)
  }

  ghost predicate Filed(hash: Hash, k: nat, data: seq<bv64>, data': seq<bv64>, key: Key, g: nat)
    requires |data| > 0 && |data| % 2 == 0
  {
    && |data| == |data'|
    && forall w: nat, c: bv64 :: 2 * w + 1 < |data| && c < 64 ==>
         Cell(data', w, c) == if Files(hash, k, key, |data|, Spot(w, c)) then g else Cell(data, w, c)
  }

  /** Starting a generation wipes the label of the one three back, which none
      of the keys still promised carries. */
  lemma AdvanceKeeps(hash: Hash, k: nat, data: seq<bv64>, data': seq<bv64>, g: nat,
                     cur: seq<Key>, prev: seq<Key>, prev2: seq<Key>)
    requires |data| > 0 && |data| % 2 == 0 && 1 <= g <= 3
    requires Recent(hash, k, data, g, cur, prev, prev2) && Wiped(data, data', Next(g))
    ensures Recent(hash, k, data', Next(g), [], cur, prev)
  {
    hide Cell, SpotOf;
    forall key, n | key in cur && 0 <= n < k
      ensures Cell(data', SpotOf(hash, key, n, |data'|).w, SpotOf(hash, key, n, |data'|).c)
              in {Next(g), Before(Next(g))}
    {
      assert Cell(data, SpotOf(hash, key, n, |data|).w, SpotOf(hash, key, n, |data|).c) in {g};
    }
    forall key, n | key in prev && 0 <= n < k
      ensures Cell(data', SpotOf(hash, key, n, |data'|).w, SpotOf(hash, key, n, |data'|).c) in {1, 2, 3}
    {
      assert Cell(data, SpotOf(hash, key, n, |data|).w, SpotOf(hash, key, n, |data|).c) in {g, Before(g)};
    }
  }

  lemma FileKeeps(hash: Hash, k: nat, data: seq<bv64>, data': seq<bv64>, key: Key, g: nat,
                  cur: seq<Key>, prev: seq<Key>, prev2: seq<Key>)
    requires |data| > 0 && |data| % 2 == 0 && 1 <= g <= 3
    requires Recent(hash, k, data, g, cur, prev, prev2) && Filed(hash, k, data, data', key, g)
    ensures Recent(hash, k, data', g, cur + [key], prev, prev2)
  {
    hide Cell, SpotOf;
    forall x, n | x in cur + [key] && 0 <= n < k
      ensures Cell(data', SpotOf(hash, x, n, |data'|).w, SpotOf(hash, x, n, |data'|).c) in {g}
    {
      var s := SpotOf(hash, x, n, |data|);
      if x != key {
        assert x in cur;
      } else {
        assert Files(hash, k, key, |data|, Spot(s.w, s.c));
      }
    }
  }

  /** What is remembered of the history: all of it, or its last two full
      generations and the current one. */
  ghost predicate Remembered(history: seq<Key>, g: nat, cur: seq<Key>, prev: seq<Key>, prev2: seq<Key>) {
    && |history| >= |prev2 + prev + cur| && history[|history| - |prev2 + prev + cur|..] == prev2 + prev + cur
    && (|prev| == |prev2| == g || history == prev2 + prev + cur)
    && (|prev| == g || (prev == [] && prev2 == [])) && (|prev2| == g || prev2 == [])
  }

  lemma RememberedLast(history: seq<Key>, g: nat, cur: seq<Key>, prev: seq<Key>, prev2: seq<Key>, i: nat)
    requires Remembered(history, g, cur, prev, prev2) && |history| - 2 * g - |cur| <= i < |history|
    ensures history[i] in cur || history[i] in prev || history[i] in prev2
  {
    var tail := prev2 + prev + cur;
    var j := i - (|history| - |tail|);
    assert history[i] == tail[j];
  }

  lemma NothingRecent(hash: Hash, k: nat, data: seq<bv64>, g: nat, entries: nat)
    requires |data| > 0 && |data| % 2 == 0
    ensures Recent(hash, k, data, g, [], [], []) && Remembered([], entries, [], [], [])
  {
    hide Cell, SpotOf;
  }

  class RollingBloomFilter {
    const nEntriesPerGeneration: nat
    const nHashFuncs: nat
    const data: array<bv64>
    var hash: Hash
    var nEntriesThisGeneration: nat
    var nGeneration: nat
    ghost var history: seq<Key>
    ghost var cur: seq<Key>
    ghost var prev: seq<Key>
    ghost var prev2: seq<Key>

    ghost predicate Valid()
      reads this, data
    {
      && data.Length > 0 && data.Length % 2 == 0
      && nEntriesPerGeneration >= 1 && 1 <= nGeneration <= 3
      && |cur| == nEntriesThisGeneration <= nEntriesPerGeneration
      && Recent(hash, nHashFuncs, data[..], nGeneration, cur, prev, prev2)
      && Remembered(history, nEntriesPerGeneration, cur, prev, prev2)
    }

    /** A filter for at least `nElements` keys; the number of hash functions
        and of word pairs comes from the false-positive rate. */
    constructor (nElements: nat, nHashFuncs: nat, nWordPairs: nat, hash: Hash)
      requires nElements >= 1 && nWordPairs >= 1
      ensures Valid() && history == [] && nEntriesPerGeneration == (nElements + 1) / 2
      ensures this.nHashFuncs == nHashFuncs && this.hash == hash && fresh(data) && data.Length == 2 * nWordPairs
      ensures forall i :: 0 <= i < data.Length ==> data[i] == 0
    {
      hide Recent, Remembered;
      nEntriesPerGeneration := (nElements + 1) / 2;
      this.nHashFuncs, this.hash := nHashFuncs, hash;
      data := new bv64[2 * nWordPairs](_ => 0);
      nEntriesThisGeneration, nGeneration := 0, 1;
      history, cur, prev, prev2 := [], [], [], [];
      new;
      NothingRecent(this.hash, this.nHashFuncs, data[..], 1, nEntriesPerGeneration);
    }

    method Reset(newHash: Hash)
      requires Valid()
      modifies this, data
      ensures Valid() && history == [] && hash == newHash && nGeneration == 1 && nEntriesThisGeneration == 0
      ensures forall i :: 0 <= i < data.Length ==> data[i] == 0
    {
      hide Recent, Remembered;
      hash := newHash;
      nEntriesThisGeneration, nGeneration := 0, 1;
      for i := 0 to data.Length
        invariant forall j :: 0 <= j < i ==> data[j] == 0
        modifies data
      {
        data[i] := 0;
      }
      history, cur, prev, prev2 := [], [], [], [];
      NothingRecent(hash, nHashFuncs, data[..], 1, nEntriesPerGeneration);
    }

    /** Wipe all cells that carry a label. */
    method Wipe(g: nat)
      requires data.Length % 2 == 0 && 1 <= g <= 3
      modifies data
      ensures Wiped(old(data[..]), data[..], g)
    {
      hide Cell, Bit, And, KeepMask;
      var p := 0;
      while p < data.Length
        invariant 0 <= p <= data.Length && p % 2 == 0
        invariant forall w: nat, c: bv64 :: 2 * w + 1 < data.Length && c < 64 ==>
          Cell(data[..], w, c) ==
            if 2 * w < p && Cell(old(data[..]), w, c) == g then 0 else Cell(old(data[..]), w, c)
      {
        ghost var before := data[..];
        var p1, p2 := data[p], data[p + 1];
        var mask := KeepMask(p1, p2, LowBit(g), HighBit(g));
        data[p] := And(p1, mask);
        data[p + 1] := And(p2, mask);
        assert data[..] == WipePair(before, p / 2, g);
        forall w: nat, c: bv64 | 2 * w + 1 < data.Length && c < 64
          ensures Cell(data[..], w, c) == if w == p / 2 && Cell(before, w, c) == g then 0 else Cell(before, w, c)
        {
          WipePairGet(before, p / 2, g, w, c);
        }
        p := p + 2;
      }
    }

    method FileKey(key: Key)
      requires data.Length > 0 && data.Length % 2 == 0 && 1 <= nGeneration <= 3
      modifies data
      ensures Filed(hash, nHashFuncs, old(data[..]), data[..], key, nGeneration)
    {
      hide Cell, Bit, PutBit, SpotOf;
      for n := 0 to nHashFuncs
        invariant Filed(hash, n, old(data[..]), data[..], key, nGeneration)
      {
        ghost var before := data[..];
        var s := SpotOf(hash, key, n, data.Length);
        data[2 * s.w] := PutBit(data[2 * s.w], s.c, LowBit(nGeneration));
        data[2 * s.w + 1] := PutBit(data[2 * s.w + 1], s.c, HighBit(nGeneration));
        assert data[..] == PutCell(before, s.w, s.c, nGeneration);
        forall w: nat, c: bv64 | 2 * w + 1 < data.Length && c < 64
          ensures Cell(data[..], w, c) == if w == s.w && c == s.c then nGeneration else Cell(before, w, c)
          ensures Files(hash, n + 1, key, data.Length, Spot(w, c)) <==>
                  Files(hash, n, key, data.Length, Spot(w, c)) || s == Spot(w, c)
        {
          PutCellGet(before, s.w, s.c, nGeneration, w, c);
          if s == Spot(w, c) {
            assert SpotOf(hash, key, n, data.Length) == Spot(w, c);
          }
        }
      }
    }

    method Insert(key: Key)
      requires Valid()
      modifies this, data
      ensures Valid() && history == old(history) + [key] && hash == old(hash)
      ensures old(nEntriesThisGeneration) < nEntriesPerGeneration ==>
                && nGeneration == old(nGeneration) && nEntriesThisGeneration == old(nEntriesThisGeneration) + 1
                && Filed(hash, nHashFuncs, old(data[..]), data[..], key, nGeneration)
      ensures old(nEntriesThisGeneration) == nEntriesPerGeneration ==>
                && nGeneration == Next(old(nGeneration)) && nEntriesThisGeneration == 1
                && exists wiped :: Wiped(old(data[..]), wiped, nGeneration) &&
                                   Filed(hash, nHashFuncs, wiped, data[..], key, nGeneration)
    {
      hide Recent, Wiped, Filed, Remembered;
      if nEntriesThisGeneration == nEntriesPerGeneration {
        nEntriesThisGeneration := 0;
        nGeneration := nGeneration + 1;
        if nGeneration == 4 {
          nGeneration := 1;
        }
        Wipe(nGeneration);
        AdvanceKeeps(hash, nHashFuncs, old(data[..]), data[..], old(nGeneration), cur, prev, prev2);
        RememberAdvance(history, nEntriesPerGeneration, cur, prev, prev2);
        cur, prev, prev2 := [], cur, prev;
      }
      ghost var wiped := data[..];
      nEntriesThisGeneration := nEntriesThisGeneration + 1;
      FileKey(key);
      FileKeeps(hash, nHashFuncs, wiped, data[..], key, nGeneration, cur, prev, prev2);
      RememberMore(history, nEntriesPerGeneration, cur, prev, prev2, key);
      history, cur := history + [key], cur + [key];
    }

    /** True at least for everything inserted in the current generation and the
        two full ones before it. */
    method Contains(key: Key) returns (found: bool)
      requires Valid()
      ensures found <==> forall n :: 0 <= n < nHashFuncs ==>
                var s := SpotOf(hash, key, n, data.Length); Cell(data[..], s.w, s.c) != 0
      ensures (exists i :: 0 <= i < |history| && history[i] == key
                 && |history| - 2 * nEntriesPerGeneration - nEntriesThisGeneration <= i) ==> found
    {
      hide SpotOf, Bit, Or;
      if i :| 0 <= i < |history| && history[i] == key
              && |history| - 2 * nEntriesPerGeneration - nEntriesThisGeneration <= i {
        RememberedLast(history, nEntriesPerGeneration, cur, prev, prev2, i);
      }
      for n := 0 to nHashFuncs
        invariant forall m :: 0 <= m < n ==>
          var s := SpotOf(hash, key, m, data.Length); Cell(data[..], s.w, s.c) != 0
      {
        var s := SpotOf(hash, key, n, data.Length);
        BitOr(data[2 * s.w], data[2 * s.w + 1], s.c);
        if !Bit(Or(data[2 * s.w], data[2 * s.w + 1]), s.c) {
          return false;
        }
      }
      found := true;
    }
  }

  lemma RememberAdvance(history: seq<Key>, g: nat, cur: seq<Key>, prev: seq<Key>, prev2: seq<Key>)
    requires Remembered(history, g, cur, prev, prev2) && |cur| == g
    ensures Remembered(history, g, [], cur, prev)
  {
    var n, tail := |history|, prev2 + prev + cur;
    SuffixOf(history, prev2, prev + cur);
    assert prev2 + (prev + cur) == tail;
    assert prev + cur + [] == prev + cur;
    if prev2 == [] { assert tail == prev + cur; }
  }

  lemma SuffixOf(history: seq<Key>, x: seq<Key>, y: seq<Key>)
    requires |history| >= |x + y| && history[|history| - |x + y|..] == x + y
    ensures history[|history| - |y|..] == y
  {
    var start := |history| - |x + y|;
    assert (x + y)[|x|..] == y;
    assert history[start..][|x|..] == history[start + |x|..];
  }

  lemma RememberMore(history: seq<Key>, g: nat, cur: seq<Key>, prev: seq<Key>, prev2: seq<Key>, key: Key)
    requires Remembered(history, g, cur, prev, prev2)
    ensures Remembered(history + [key], g, cur + [key], prev, prev2)
  {
    var tail := prev2 + prev + cur;
    assert prev2 + prev + (cur + [key]) == tail + [key];
    assert (history + [key])[|history| - |tail|..] == history[|history| - |tail|..] + [key];
  }
}
