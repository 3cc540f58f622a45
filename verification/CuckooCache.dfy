/** The cuckoo cache in place: bit-packed collection flags, epoch flags and the
    element table. */
module CuckooCache {
  import opened Nonlinear
  import opened CuckooModel

  // ---------- bit-packed flags ----------

  function Mask(k: nat): bv8
    requires k < 8
  {
    1 << k
  }

  predicate TestBit(b: bv8, k: nat)
    requires k < 8
  {
    b & Mask(k) != 0
  }

  function WithBit(b: bv8, k: nat): bv8
    requires k < 8
  {
    b | Mask(k)
  }

  function WithoutBit(b: bv8, k: nat): bv8
    requires k < 8
  {
    b & !Mask(k)
  }

  lemma MaskValues(k: nat)
    requires k < 8
    ensures Mask(k) == [0x01, 0x02, 0x04, 0x08, 0x10, 0x20, 0x40, 0x80][k]
  {
    assert k == 0 || k == 1 || k == 2 || k == 3 || k == 4 || k == 5 || k == 6 || k == 7;
  }

  lemma MasksApart(k: nat, j: nat)
    requires k < 8 && j < 8
    ensures Mask(k) != 0 && (k != j ==> Mask(k) & Mask(j) == 0)
  {
    MaskValues(k);
    MaskValues(j);
  }

  lemma MaskAlgebra(b: bv8, m: bv8, n: bv8)
    ensures m & n == 0 ==> (b | m) & n == b & n && (b & !m) & n == b & n
    ensures (b | m) & m == m && (b & !m) & m == 0
  {
  }

  lemma ChangeOneBit(b: bv8, k: nat, j: nat)
    requires k < 8 && j < 8
    ensures TestBit(WithBit(b, k), j) <==> j == k || TestBit(b, j)
    ensures TestBit(WithoutBit(b, k), j) <==> j != k && TestBit(b, j)
  {
    MasksApart(k, j);
    hide Mask;
    MaskAlgebra(b, Mask(k), Mask(j));
  }

  ghost function Bits(mem: seq<bv8>): (r: seq<bool>)
    ensures |r| == 8 * |mem|
  {
    seq(8 * |mem|, i requires 0 <= i < 8 * |mem| => TestBit(mem[i / 8], i % 8))
  }

  lemma BitsUpdate(mem: seq<bv8>, s: nat, b: bv8, v: bool)
    requires s < 8 * |mem|
    requires forall j :: 0 <= j < 8 ==> TestBit(b, j) == if j == s % 8 then v else TestBit(mem[s / 8], j)
    ensures Bits(mem[s / 8 := b]) == Bits(mem)[s := v]
  {
    hide TestBit;
    var x, y := Bits(mem[s / 8 := b]), Bits(mem)[s := v];
    forall i | 0 <= i < |x| ensures x[i] == y[i] {
      if i / 8 == s / 8 {
        assert i % 8 == s % 8 <==> i == s;
      }
    }
  }

  lemma BitsSet(mem: seq<bv8>, s: nat)
    requires s < 8 * |mem|
    ensures Bits(mem[s / 8 := WithBit(mem[s / 8], s % 8)]) == Bits(mem)[s := true]
    ensures Bits(mem[s / 8 := WithoutBit(mem[s / 8], s % 8)]) == Bits(mem)[s := false]
  {
    hide TestBit, WithBit, WithoutBit, Bits;
    var b := mem[s / 8];
    forall j | 0 <= j < 8
      ensures TestBit(WithBit(b, s % 8), j) == if j == s % 8 then true else TestBit(b, j)
      ensures TestBit(WithoutBit(b, s % 8), j) == if j == s % 8 then false else TestBit(b, j)
    {
      ChangeOneBit(b, s % 8, j);
    }
    BitsUpdate(mem, s, WithBit(b, s % 8), true);
    BitsUpdate(mem, s, WithoutBit(b, s % 8), false);
  }

  class BitPackedFlags {
    const mem: array<bv8>

    ghost function View(): seq<bool>
      reads mem
    {
      Bits(mem[..])
    }

    /** Room for `size` entries, all marked. The rounding up is in 32 bits: for the
        seven largest sizes it wraps, and there is no room at all. */
    constructor (size: nat)
      requires size < TWO32
      ensures fresh(mem) && (size <= |View()| <==> size + 7 < TWO32)
      ensures |View()| == if size + 7 < TWO32 then (size + 7) / 8 * 8 else 0
      ensures forall i :: 0 <= i < |View()| ==> View()[i]
    {
      var n := (size + 7) % TWO32 / 8;
      mem := new bv8[n](_ => 0xff);
      new;
      forall i | 0 <= i < |View()| ensures View()[i] {
        MaskValues(i % 8);
      }
    }

    method BitSet(s: nat)
      requires s < |View()|
      modifies mem
      ensures View() == old(View())[s := true]
    {
      hide WithBit, WithoutBit, TestBit;
      BitsSet(mem[..], s);
      ghost var before := mem[..];
      mem[s / 8] := WithBit(mem[s / 8], s % 8);
      assert mem[..] == before[s / 8 := WithBit(before[s / 8], s % 8)];
    }

    method BitUnset(s: nat)
      requires s < |View()|
      modifies mem
      ensures View() == old(View())[s := false]
    {
      hide WithBit, WithoutBit, TestBit;
      BitsSet(mem[..], s);
      ghost var before := mem[..];
      mem[s / 8] := WithoutBit(mem[s / 8], s % 8);
      assert mem[..] == before[s / 8 := WithoutBit(before[s / 8], s % 8)];
    }

    method BitIsSet(s: nat) returns (r: bool)
      requires s < |View()|
      ensures r == View()[s]
    {
      r := Mask(s % 8) & mem[s / 8] != 0;
    }
  }

  /** The header promises room for up to 2^32 - 2 entries; here is none for that many. */
  method NoRoomExample() returns (flags: BitPackedFlags)
    ensures fresh(flags) && flags.View() == []
  {
    flags := new BitPackedFlags(TWO32 - 2);
  }

  class Cache<Element(==, !new)> {
    const params: Params<Element>
    const blank: Element          // what a slot holds before it is first written
    const epochSize: nat
    const depthLimit: nat
    const collectionFlags: BitPackedFlags
    var table: seq<Element>
    var epochFlags: seq<bool>
    var epochHeuristicCounter: nat

    ghost predicate Shape()
      reads this
    {
      && ParamsOk(params) && |table| == |epochFlags| == params.size
      && params.size <= 8 * collectionFlags.mem.Length
    }

    ghost function St(): Store<Element>
      requires Shape()
      reads this, collectionFlags.mem
    {
      Store(table, epochFlags, collectionFlags.View()[..params.size])
    }

    ghost function Contents(): CuckooModel.Cache<Element>
      requires Shape()
      reads this, collectionFlags.mem
    {
      CuckooModel.Cache(St(), epochHeuristicCounter)
    }

    ghost predicate Valid()
      reads this, collectionFlags.mem
    {
      Shape() && CacheOk(params, Contents(), epochSize, blank)
    }

    /** setup: sizes are computed in 32 bits, as the node does. The cache can be used
        exactly when the flags have room for its size. */
    constructor Setup(newSize: nat, hash: (Element, nat) -> nat, blank: Element, depthLimit: nat)
      requires newSize <= INVALID
      ensures params == Params(hash, Max(2, newSize)) && this.blank == blank
      ensures epochSize == Max(1, (45 * params.size) % TWO32 / 100) && this.depthLimit == depthLimit
      ensures Valid() <==> params.size + 7 < TWO32
      ensures Valid() ==> forall i :: 0 <= i < params.size ==> St().trash[i] && St().table[i] == blank
      ensures fresh(collectionFlags.mem)
    {
      var size := Max(2, newSize);
      params, this.blank, this.depthLimit := Params(hash, size), blank, depthLimit;
      collectionFlags := new BitPackedFlags(size);
      table := seq(size, _ => blank);
      epochFlags := seq(size, _ => false);
      epochSize := Max(1, (45 * size) % TWO32 / 100);
      epochHeuristicCounter := Max(1, (45 * size) % TWO32 / 100);
      new;
      if Shape() {
        AllTrash(St(), true, size);
        AllTrash(St(), false, size);
      }
    }

    method AllowErase(n: nat)
      requires Shape() && n < params.size
      modifies collectionFlags.mem
      ensures St() == old(St()).(trash := old(St()).trash[n := true])
    {
      collectionFlags.BitSet(n);
    }

    method PleaseKeep(n: nat)
      requires Shape() && n < params.size
      modifies collectionFlags.mem
      ensures St() == old(St()).(trash := old(St()).trash[n := false])
    {
      collectionFlags.BitUnset(n);
    }

    /** The number of entries of the current epoch that were not erased. */
    method CountUnused() returns (count: nat)
      requires Shape()
      ensures count == Load(St(), true)
    {
      count := 0;
      for i := 0 to params.size
        invariant count == Live(St().recent, St().trash, true, i)
      {
        var isTrash := collectionFlags.BitIsSet(i);
        if epochFlags[i] && !isTrash {
          count := count + 1;
        }
      }
    }

    method Age()
      requires Shape()
      modifies this`epochFlags, collectionFlags.mem
      ensures Shape() && St() == Aged(old(St()))
    {
      ghost var st := St();
      for i := 0 to params.size
        invariant Shape() && table == st.table
        invariant forall j :: 0 <= j < params.size ==>
          St().recent[j] == if j < i then false else st.recent[j]
        invariant forall j :: 0 <= j < params.size ==>
          St().trash[j] == if j < i then st.trash[j] || !st.recent[j] else st.trash[j]
      {
        if epochFlags[i] {
          epochFlags := epochFlags[i := false];
        } else {
          AllowErase(i);
        }
      }
    }

    method EpochCheck()
      requires Shape()
      modifies this`epochFlags, this`epochHeuristicCounter, collectionFlags.mem
      ensures Shape() && (St(), epochHeuristicCounter) ==
              CuckooModel.EpochCheck(old(St()), old(epochHeuristicCounter), epochSize)
    {
      if epochHeuristicCounter != 0 {
        epochHeuristicCounter := epochHeuristicCounter - 1;
        return;
      }
      var epochUnusedCount := CountUnused();
      if epochUnusedCount >= epochSize {
        Age();
        epochHeuristicCounter := epochSize;
      } else {
        epochHeuristicCounter := Max(1, Max(epochSize / 16, epochSize - epochUnusedCount));
      }
    }

    method Contains(e: Element, erase: bool) returns (found: bool)
      requires Valid()
      modifies collectionFlags.mem
      ensures Valid() && Contents() == Step(params, old(Contents()), OpContains(e, erase), epochSize, depthLimit)
      ensures found <==> FindSame(table, Locs(params, e), e, 0) < 8
      ensures e in table && e != blank ==> found
    {
      hide Homed, Live;
      StepOk(params, Contents(), OpContains(e, erase), epochSize, depthLimit, blank);
      if e in table && e != blank {
        StoredIsFound(params, St(), blank, e);
      }
      var locs := Locs(params, e);
      for k := 0 to 8
        invariant FindSame(table, locs, e, 0) == FindSame(table, locs, e, k)
        invariant St() == old(St())
      {
        if table[locs[k]] == e {
          if erase {
            AllowErase(locs[k]);
          }
          return true;
        }
      }
      found := false;
    }

    method Insert(element: Element)
      requires Valid()
      modifies this, collectionFlags.mem
      ensures Valid() && Contents() == Step(params, old(Contents()), OpInsert(element), epochSize, depthLimit)
    {
      hide Homed, Live;
      StepOk(params, Contents(), OpInsert(element), epochSize, depthLimit, blank);
      EpochCheck();
      var present := KeepIfPresent(element);
      if !present {
        Displace(element);
      }
    }

    /** An element that is there already is only marked as current. */
    method KeepIfPresent(e: Element) returns (present: bool)
      requires Shape()
      modifies this`epochFlags, collectionFlags.mem
      ensures Shape() && present == (FindSame(table, Locs(params, e), e, 0) < 8)
      ensures if present then St() == CuckooModel.Insert(params, old(St()), e, depthLimit).0 else St() == old(St())
    {
      hide Locs;
      var locs := Locs(params, e);
      for k := 0 to 8
        invariant FindSame(table, locs, e, 0) == FindSame(table, locs, e, k)
        invariant Shape() && St() == old(St())
      {
        if table[locs[k]] == e {
          PleaseKeep(locs[k]);
          epochFlags := epochFlags[locs[k] := true];
          return true;
        }
      }
      present := false;
    }

    method Displace(element: Element)
      requires Shape()
      modifies this`table, this`epochFlags, collectionFlags.mem
      ensures Shape() && St() == Chain(params, old(St()), element, true, INVALID, depthLimit).0
    {
      hide Locs, Bits, FindTrash, Chain;
      var e := element;
      var lastLoc := INVALID;
      var lastEpoch := true;
      for depth := 0 to depthLimit
        invariant Shape()
        invariant Chain(params, St(), e, lastEpoch, lastLoc, depthLimit - depth) ==
                  Chain(params, old(St()), element, true, INVALID, depthLimit)
      {
        var locs := Locs(params, e);
        var free := FirstTrash(locs);
        ghost var st := St();
        ChainUnfold(params, st, e, lastEpoch, lastLoc, depthLimit - depth);
        if free < 8 {
          table := table[locs[free] := e];
          PleaseKeep(locs[free]);
          epochFlags := epochFlags[locs[free] := lastEpoch];
          return;
        }
        lastLoc := locs[(1 + FindLoc(locs, lastLoc, 0)) % 8];
        var displaced, epoch := table[lastLoc], lastEpoch;
        table := table[lastLoc := e];
        e := displaced;
        lastEpoch := epochFlags[lastLoc];
        epochFlags := epochFlags[lastLoc := epoch];
        assert St() == Displaced(st, lastLoc, table[lastLoc], epoch);
      }
      ChainUnfold(params, St(), e, lastEpoch, lastLoc, 0);
    }

    method FirstTrash(locs: seq<nat>) returns (k: nat)
      requires Shape() && |locs| == 8 && forall i :: 0 <= i < 8 ==> locs[i] < params.size
      ensures k == FindTrash(St().trash, locs, 0)
    {
      k := 0;
      while k < 8
        invariant k <= 8 && FindTrash(St().trash, locs, 0) == FindTrash(St().trash, locs, k)
      {
        var isTrash := collectionFlags.BitIsSet(locs[k]);
        if isTrash {
          return;
        }
        k := k + 1;
      }
    }
  }

  lemma {:induction false} AllTrash<Element>(st: Store<Element>, flag: bool, n: nat)
    requires n <= |st.recent| == |st.trash| && forall i :: 0 <= i < |st.trash| ==> st.trash[i]
    ensures Live(st.recent, st.trash, flag, n) == 0
  {
    if n > 0 {
      AllTrash(st, flag, n - 1);
    }
  }
}
