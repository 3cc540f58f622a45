/** What the Bech32 checksum detects: three consecutive powers of a generator of
    GF(1024) are roots of its polynomial, so no one, two or three errors within 1023
    characters leave the remainder unchanged. */
module Bech32Errors {
  import opened Bech32
  import opened Field1024
  import opened Nonlinear

  // ---------- GF(32) inside GF(1024) ----------

  function Embed(v: bv32): bv32 {
    Xor(Xor(Xor(Xor(if v & 1 != 0 then 0x1 else 0, if v & 2 != 0 then 0xe else 0), if v & 4 != 0 then 0x54 else 0),
            if v & 8 != 0 then 0x358 else 0), if v & 16 != 0 then 0xbf else 0)
  }

  lemma EmbedIs(v: bv32)
    ensures Embed(v) ==
            Xor(Xor(Xor(Xor(If(v, 1, 0x1), If(v, 2, 0xe)), If(v, 4, 0x54)), If(v, 8, 0x358)), If(v, 16, 0xbf))
  {
    hide Xor;
  }

  lemma LowBits()
    ensures OneBit(1) && OneBit(2) && OneBit(4) && OneBit(8) && OneBit(16)
  {
  }

  lemma EmbedLinear(v: bv32, w: bv32)
    ensures Embed(Xor(v, w)) == Xor(Embed(v), Embed(w))
  {
    hide Xor, If, OneBit, Embed;
    EmbedIs(v);
    EmbedIs(w);
    EmbedIs(Xor(v, w));
    LowBits();
    IfLinear(v, w, 1, 0x1);
    IfLinear(v, w, 2, 0xe);
    IfLinear(v, w, 4, 0x54);
    IfLinear(v, w, 8, 0x358);
    IfLinear(v, w, 16, 0xbf);
    var a, b := If(v, 1, 0x1), If(w, 1, 0x1);
    var c, d := If(v, 2, 0xe), If(w, 2, 0xe);
    XorSwap(a, b, c, d);
    XorSwap(Xor(a, c), Xor(b, d), If(v, 4, 0x54), If(w, 4, 0x54));
    a, b := Xor(Xor(a, c), If(v, 4, 0x54)), Xor(Xor(b, d), If(w, 4, 0x54));
    XorSwap(a, b, If(v, 8, 0x358), If(w, 8, 0x358));
    XorSwap(Xor(a, If(v, 8, 0x358)), Xor(b, If(w, 8, 0x358)), If(v, 16, 0xbf), If(w, 16, 0xbf));
  }

  lemma EmbedSmall(v: bv32)
    requires v < 32
    ensures Embed(v) < 1024 && (Embed(v) == 0 ==> v == 0)
  {
  }

  lemma EmbedZero()
    ensures Embed(0) == 0
  {
  }

  // ---------- the value of a polynomial at z^m ----------

  ghost function ValueAt(m: nat, d: seq<bv32>): bv32 {
    if d == [] then 0 else Xor(Shift(m, ValueAt(m, d[..|d| - 1])), Embed(d[|d| - 1]))
  }

  lemma ValueSnoc(m: nat, d: seq<bv32>, v: bv32)
    ensures ValueAt(m, d + [v]) == Xor(Shift(m, ValueAt(m, d)), Embed(v))
  {
    assert (d + [v])[..|d|] == d;
  }

  lemma {:induction false} ValueLinear(m: nat, x: seq<bv32>, y: seq<bv32>)
    requires |x| == |y|
    ensures ValueAt(m, XorAll(x, y)) == Xor(ValueAt(m, x), ValueAt(m, y))
  {
    hide Xor, Shift, Embed;
    if x == [] {
      XorZero(0);
    } else {
      var n := |x| - 1;
      ValueLinear(m, x[..n], y[..n]);
      assert XorAll(x, y)[..n] == XorAll(x[..n], y[..n]);
      var a, b := ValueAt(m, x[..n]), ValueAt(m, y[..n]);
      ShiftLinear(m, a, b);
      EmbedLinear(x[n], y[n]);
      XorSwap(Shift(m, a), Shift(m, b), Embed(x[n]), Embed(y[n]));
    }
  }

  lemma {:induction false} ValueSmall(m: nat, d: seq<bv32>)
    requires AllFive(d)
    ensures ValueAt(m, d) < 1024
  {
    hide Xor, Shift, Embed;
    if d != [] {
      var n := |d| - 1;
      ValueSmall(m, d[..n]);
      ShiftSmall(m, ValueAt(m, d[..n]));
      EmbedSmall(d[n]);
      XorSmall(Shift(m, ValueAt(m, d[..n])), Embed(d[n]));
    }
  }

  // ---------- the roots ----------

  /** k(x), which is x^6 modulo the generator. */
  const K: seq<bv32> := [29, 22, 20, 21, 29, 18]

  ghost predicate IsRoot(m: nat) { m == 24 || m == 25 || m == 26 }

  lemma {:induction false} ValueOfX(m: nat, v: bv32, n: nat)
    ensures ValueAt(m, [v] + ZeroValues(n)) == Shift(n * m, Embed(v))
    decreases n
  {
    hide Xor, Shift, Embed;
    if n == 0 {
      assert [v] + ZeroValues(0) == [] + [v];
      ValueSnoc(m, [], v);
      ShiftLinear(m, 0, 0);
      XorZero(Embed(v));
      assert 0 * m == 0;
      ShiftNone(Embed(v));
    } else {
      ValueOfX(m, v, n - 1);
      assert [v] + ZeroValues(n) == ([v] + ZeroValues(n - 1)) + [0];
      ValueSnoc(m, [v] + ZeroValues(n - 1), 0);
      EmbedZero();
      XorZero(Shift(m, Shift((n - 1) * m, Embed(v))));
      ShiftAdd(m, (n - 1) * m, Embed(v));
      assert m + (n - 1) * m == n * m;
    }
  }

  /** One more coefficient, at the element c = z^m. */
  lemma NextValue(m: nat, d: seq<bv32>, v: bv32, e: seq<bv32>, c: bv32, x: bv32)
    requires e == d + [v] && Shift(m, 1) == c && ValueAt(m, d) == x && x < 1024
    ensures ValueAt(m, e) == Xor(Product(c, x), Embed(v))
  {
    hide Xor, Shift, Embed, Product;
    ValueSnoc(m, d, v);
    ShiftIsProduct(m, x);
  }

  lemma Embeds()
    ensures Embed(29) == 0x3b2 && Embed(22) == 0xe5 && Embed(20) == 0xeb && Embed(21) == 0xea && Embed(18) == 0xb1
  {
  }

  lemma Power144()
    ensures Shift(144, 1) == 0x2ba
  {
    hide Shift;
    FirstPowers();
    PowerAdd(24, 24, 0x3f0, 0x3f0);
    PowerAdd(48, 48, 0x24d, 0x24d);
    PowerAdd(96, 48, 0xb9, 0x24d);
  }

  lemma Root24()
    ensures ValueAt(24, K) == Shift(144, 1)
  {
    hide Shift, ValueAt, Embed;
    FirstPowers();
    Embeds();
    Power144();
    ValueOne(24, 29);
    NextValue(24, [29], 22, [29, 22], 0x3f0, 0x3b2);
    NextValue(24, [29, 22], 20, [29, 22, 20], 0x3f0, 0x7d);
    NextValue(24, [29, 22, 20], 21, [29, 22, 20, 21], 0x3f0, 0x7d);
    NextValue(24, [29, 22, 20, 21], 29, [29, 22, 20, 21, 29], 0x3f0, 0x7c);
    NextValue(24, [29, 22, 20, 21, 29], 18, K, 0x3f0, 0xd4);
  }

  lemma Power150()
    ensures Shift(150, 1) == 0xa6
  {
    hide Shift;
    FirstPowers();
    PowerAdd(25, 25, 0x2c3, 0x2c3);
    PowerAdd(50, 50, 0x372, 0x372);
    PowerAdd(100, 50, 0x1d6, 0x372);
  }

  lemma Root25()
    ensures ValueAt(25, K) == Shift(150, 1)
  {
    hide Shift, ValueAt, Embed;
    FirstPowers();
    Embeds();
    Power150();
    ValueOne(25, 29);
    NextValue(25, [29], 22, [29, 22], 0x2c3, 0x3b2);
    NextValue(25, [29, 22], 20, [29, 22, 20], 0x2c3, 0x1d5);
    NextValue(25, [29, 22, 20], 21, [29, 22, 20, 21], 0x2c3, 0x3ad);
    NextValue(25, [29, 22, 20, 21], 29, [29, 22, 20, 21, 29], 0x2c3, 0x69);
    NextValue(25, [29, 22, 20, 21, 29], 18, K, 0x2c3, 0x3df);
  }

  lemma Power156()
    ensures Shift(156, 1) == 0x98
  {
    hide Shift;
    FirstPowers();
    PowerAdd(26, 26, 0xa5, 0xa5);
    PowerAdd(52, 52, 0x2ad, 0x2ad);
    PowerAdd(104, 52, 0x3aa, 0x2ad);
  }

  lemma Root26()
    ensures ValueAt(26, K) == Shift(156, 1)
  {
    hide Shift, ValueAt, Embed;
    FirstPowers();
    Embeds();
    Power156();
    ValueOne(26, 29);
    NextValue(26, [29], 22, [29, 22], 0xa5, 0x3b2);
    NextValue(26, [29, 22], 20, [29, 22, 20], 0xa5, 0x285);
    NextValue(26, [29, 22, 20], 21, [29, 22, 20, 21], 0xa5, 0xaa);
    NextValue(26, [29, 22, 20, 21], 29, [29, 22, 20, 21, 29], 0xa5, 0x137);
    NextValue(26, [29, 22, 20, 21, 29], 18, K, 0xa5, 0x193);
  }

  lemma ValueOne(m: nat, v: bv32)
    ensures ValueAt(m, [v]) == Embed(v)
  {
    hide Xor, Shift, Embed;
    assert [v] == [] + [v];
    ValueSnoc(m, [], v);
    ShiftLinear(m, 0, 0);
    XorZero(Embed(v));
  }

  /** Times {2} in GF(32). */
  function Double(v: bv32): bv32 { if v & 16 != 0 then (v << 1) ^ 0x29 else v << 1 }

  function DoubleAll(d: seq<bv32>): (r: seq<bv32>)
    ensures |r| == |d|
  {
    seq(|d|, i requires 0 <= i < |d| => Double(d[i]))
  }

  /** {2} is z^924. */
  lemma Power924()
    ensures Shift(924, 1) == 0xe
  {
    hide Shift;
    MiddlePowers();
    Power429();
    PowerAdd(429, 429, 0xb1, 0xb1);
    PowerAdd(858, 66, 0x3bd, 0x3bc);
  }

  lemma EmbedDouble(v: bv32)
    requires v < 32
    ensures Double(v) < 32 && Embed(Double(v)) == Shift(924, Embed(v))
  {
    hide Shift, Product;
    Power924();
    EmbedSmall(v);
    ShiftIsProduct(924, Embed(v));
    ProductDouble(v);
  }

  lemma ProductDouble(v: bv32)
    requires v < 32
    ensures Double(v) < 32 && Embed(Double(v)) == Product(0xe, Embed(v))
  {
  }

  lemma ShiftsCommute(a: nat, b: nat, v: bv32)
    ensures Shift(a, Shift(b, v)) == Shift(b, Shift(a, v))
  {
    hide Shift;
    ShiftAdd(a, b, v);
    ShiftAdd(b, a, v);
  }

  lemma {:induction false} ValueDouble(m: nat, d: seq<bv32>)
    requires AllFive(d)
    ensures ValueAt(m, DoubleAll(d)) == Shift(924, ValueAt(m, d))
  {
    hide Xor, Shift, Embed, Double;
    if d == [] {
      ShiftLinear(924, 0, 0);
    } else {
      var n := |d| - 1;
      ValueDouble(m, d[..n]);
      assert DoubleAll(d)[..n] == DoubleAll(d[..n]);
      EmbedDouble(d[n]);
      ShiftsCommute(m, 924, ValueAt(m, d[..n]));
      ShiftLinear(924, Shift(m, ValueAt(m, d[..n])), Embed(d[n]));
    }
  }

  // ---------- one step of the checksum ----------

  /** The value of a remainder. */
  ghost function RemainderAt(m: nat, c: bv32): bv32 { ValueAt(m, Groups(c, 6)) }

  lemma DownLinear(a: bv32, b: bv32)
    ensures Down(Xor(a, b)) == Xor(Down(a), Down(b))
  {
  }

  lemma {:induction false} GroupsLinear(a: bv32, b: bv32, n: nat)
    ensures Groups(Xor(a, b), n) == XorAll(Groups(a, n), Groups(b, n))
    decreases n
  {
    hide Xor, Down, And;
    if n > 0 {
      GroupsLinear(Down(a), Down(b), n - 1);
      DownLinear(a, b);
      AndXor(a, b, 31);
    }
  }

  lemma RemainderLinear(m: nat, a: bv32, b: bv32)
    ensures RemainderAt(m, Xor(a, b)) == Xor(RemainderAt(m, a), RemainderAt(m, b))
  {
    hide Groups, ValueAt, Xor;
    GroupsLinear(a, b, 6);
    ValueLinear(m, Groups(a, 6), Groups(b, 6));
  }

  /** Without a top coefficient a step shifts the others up. */
  lemma LowStep(m: nat, c: bv32, v: bv32)
    requires c < 0x2000000 && v < 32
    ensures RemainderAt(m, Step(c, v)) == Xor(Shift(m, RemainderAt(m, c)), Embed(v))
  {
    hide Step, ValueAt, Xor, Shift, Embed, Groups, Down, And, Up;
    StepLow(c, v);
    Unpacked(c, v);
    GroupsLast(Xor(Up(c), v), 6);
    ValueSnoc(m, Groups(c, 5), v);
    GroupsTop(c);
    ValueLeading(m, Groups(c, 5));
  }

  lemma Unpacked(c: bv32, v: bv32)
    requires c < 0x2000000 && v < 32
    ensures Down(Xor(Up(c), v)) == c && And(Xor(Up(c), v), 31) == v
  {
  }

  lemma GroupsTop(c: bv32)
    requires c < 0x2000000
    ensures Groups(c, 6) == [0] + Groups(c, 5)
  {
    hide Down, And;
    LimitTo(c);
    GroupsFront(c, 5);
  }

  lemma LimitTo(c: bv32)
    requires c < 0x2000000
    ensures c < Limit(5)
  {
  }

  lemma {:induction false} GroupsFront(c: bv32, n: nat)
    requires n <= 5 && c < Limit(n)
    ensures Groups(c, n + 1) == [0] + Groups(c, n)
    decreases n
  {
    hide Down, And, Limit;
    if n == 0 {
      LimitOne();
      OnlyZero();
    } else {
      LimitShift(c, n);
      GroupsFront(Down(c), n - 1);
    }
  }

  lemma OnlyZero()
    ensures Groups(0, 1) == [0]
  {
    assert And(0, 31) == 0;
  }

  lemma ValueLeading(m: nat, d: seq<bv32>)
    ensures ValueAt(m, [0] + d) == ValueAt(m, d)
    decreases |d|
  {
    hide Xor, Shift, Embed;
    if d == [] {
      assert [0] + d == [0];
      ValueOne(m, 0);
      EmbedZero();
    } else {
      var n := |d| - 1;
      ValueLeading(m, d[..n]);
      assert [0] + d == ([0] + d[..n]) + [d[n]];
      ValueSnoc(m, [0] + d[..n], d[n]);
    }
  }

  /** A step from the n-th bit of the top coefficient alone. */
  ghost predicate TopOk(m: nat, c: bv32) { RemainderAt(m, Step(c, 0)) == Shift(m, RemainderAt(m, c)) }

  lemma TopGroups()
    ensures Groups(0x2000000, 6) == [1] + ZeroValues(5) && Groups(0x3b6a57b2, 6) == K
  {
    GroupsAre(0x2000000);
    GroupsAre(0x3b6a57b2);
  }

  lemma TopSteps()
    ensures Step(0x2000000, 0) == 0x3b6a57b2 && Step(0x4000000, 0) == 0x26508e6d
    ensures Step(0x8000000, 0) == 0x1ea119fa && Step(0x10000000, 0) == 0x3d4233dd
    ensures Step(0x20000000, 0) == 0x2a1462b3
  {
    TapsAre(0x2000000);
    TapsAre(0x4000000);
    TapsAre(0x8000000);
    TapsAre(0x10000000);
    TapsAre(0x20000000);
  }

  lemma TopFirst(m: nat)
    requires IsRoot(m)
    ensures TopOk(m, 0x2000000)
  {
    hide Step, Groups, ValueAt, Shift, Embed;
    TopSteps();
    TopGroups();
    ValueOfX(m, 1, 5);
    assert Embed(1) == 1 by { EmbedOne(); }
    ShiftAdd(m, 5 * m, 1);
    if m == 24 { Root24(); } else if m == 25 { Root25(); } else { Root26(); }
  }

  lemma EmbedOne()
    ensures Embed(1) == 1
  {
  }

  /** The other bits are {2} times the one before. */
  lemma TopNext(m: nat, c: bv32, c': bv32)
    requires TopOk(m, c) && Groups(c', 6) == DoubleAll(Groups(c, 6))
             && Groups(Step(c', 0), 6) == DoubleAll(Groups(Step(c, 0), 6))
    ensures TopOk(m, c')
  {
    hide Step, Groups, ValueAt, Shift, DoubleAll;
    GroupsFive(c, 6);
    GroupsFive(Step(c, 0), 6);
    ValueDouble(m, Groups(c, 6));
    ValueDouble(m, Groups(Step(c, 0), 6));
    ShiftsCommute(m, 924, RemainderAt(m, c));
  }

  lemma Doubled()
    ensures DoubleAll([1] + ZeroValues(5)) == [2] + ZeroValues(5)
            && DoubleAll([2] + ZeroValues(5)) == [4] + ZeroValues(5)
    ensures DoubleAll([4] + ZeroValues(5)) == [8] + ZeroValues(5)
            && DoubleAll([8] + ZeroValues(5)) == [16] + ZeroValues(5)
    ensures DoubleAll(K) == [19, 5, 1, 3, 19, 13] && DoubleAll([19, 5, 1, 3, 19, 13]) == [15, 10, 2, 6, 15, 26]
    ensures DoubleAll([15, 10, 2, 6, 15, 26]) == [30, 20, 4, 12, 30, 29]
    ensures DoubleAll([30, 20, 4, 12, 30, 29]) == [21, 1, 8, 24, 21, 19]
  {
  }

  lemma MoreGroups()
    ensures Groups(0x4000000, 6) == [2] + ZeroValues(5) && Groups(0x8000000, 6) == [4] + ZeroValues(5)
    ensures Groups(0x10000000, 6) == [8] + ZeroValues(5) && Groups(0x20000000, 6) == [16] + ZeroValues(5)
  {
    GroupsAre(0x4000000);
    GroupsAre(0x8000000);
    GroupsAre(0x10000000);
    GroupsAre(0x20000000);
  }

  lemma TapGroups()
    ensures Groups(0x26508e6d, 6) == [19, 5, 1, 3, 19, 13] && Groups(0x1ea119fa, 6) == [15, 10, 2, 6, 15, 26]
    ensures Groups(0x3d4233dd, 6) == [30, 20, 4, 12, 30, 29] && Groups(0x2a1462b3, 6) == [21, 1, 8, 24, 21, 19]
  {
    GroupsAre(0x26508e6d);
    GroupsAre(0x1ea119fa);
    GroupsAre(0x3d4233dd);
    GroupsAre(0x2a1462b3);
  }

  lemma TopBitsOk(m: nat)
    requires IsRoot(m)
    ensures TopOk(m, 0x2000000) && TopOk(m, 0x4000000) && TopOk(m, 0x8000000)
    ensures TopOk(m, 0x10000000) && TopOk(m, 0x20000000)
  {
    hide TopOk, Groups, Step, DoubleAll;
    TopSteps();
    TopGroups();
    MoreGroups();
    TapGroups();
    Doubled();
    TopFirst(m);
    TopNext(m, 0x2000000, 0x4000000);
    TopNext(m, 0x4000000, 0x8000000);
    TopNext(m, 0x8000000, 0x10000000);
    TopNext(m, 0x10000000, 0x20000000);
  }

  lemma TopSum(m: nat, a: bv32, b: bv32)
    requires TopOk(m, a) && TopOk(m, b)
    ensures TopOk(m, Xor(a, b))
  {
    hide Step, RemainderAt, Shift, Xor;
    XorZero(0);
    StepLinear(a, b, 0, 0);
    RemainderLinear(m, Step(a, 0), Step(b, 0));
    RemainderLinear(m, a, b);
    ShiftLinear(m, RemainderAt(m, a), RemainderAt(m, b));
  }

  lemma TopNone(m: nat)
    ensures TopOk(m, 0)
  {
    hide Step, ValueAt, Shift;
    StepZero();
    GroupsAre(0);
    assert Groups(0, 6) == [0] + ZeroValues(5);
    ValueOfX(m, 0, 5);
    EmbedZero();
    ShiftLinear(5 * m, 0, 0);
    ShiftLinear(m, 0, 0);
  }

  lemma TopParts(c: bv32)
    ensures And(c, 0x3e000000) == Xor(Xor(Xor(Xor(And(c, 0x2000000), And(c, 0x4000000)), And(c, 0x8000000)),
                                          And(c, 0x10000000)), And(c, 0x20000000))
  {
  }

  /** Multiplying the top coefficient by x agrees with the field at every root. */
  lemma TopStep(m: nat, c: bv32)
    requires IsRoot(m)
    ensures TopOk(m, And(c, 0x3e000000))
  {
    hide TopOk, Xor, And, OneBit;
    TopBitsOk(m);
    TopNone(m);
    TopBits();
    OneOf(c, 0x2000000);
    OneOf(c, 0x4000000);
    OneOf(c, 0x8000000);
    OneOf(c, 0x10000000);
    OneOf(c, 0x20000000);
    TopParts(c);
    var a := Xor(And(c, 0x2000000), And(c, 0x4000000));
    TopSum(m, And(c, 0x2000000), And(c, 0x4000000));
    TopSum(m, a, And(c, 0x8000000));
    var b := Xor(a, And(c, 0x8000000));
    TopSum(m, b, And(c, 0x10000000));
    TopSum(m, Xor(b, And(c, 0x10000000)), And(c, 0x20000000));
  }

  lemma OneOf(c: bv32, bit: bv32)
    requires OneBit(bit)
    ensures And(c, bit) == 0 || And(c, bit) == bit
  {
  }

  lemma HighAndLow(c: bv32)
    requires c < 0x40000000
    ensures c == Xor(And(c, 0x3e000000), And(c, 0x1ffffff)) && And(c, 0x1ffffff) < 0x2000000
  {
  }

  /** A step takes the value at a root through the field's own multiply and add. */
  lemma StepValue(m: nat, c: bv32, v: bv32)
    requires IsRoot(m) && c < 0x40000000 && v < 32
    ensures RemainderAt(m, Step(c, v)) == Xor(Shift(m, RemainderAt(m, c)), Embed(v))
  {
    hide Step, RemainderAt, Shift, Xor, And, Embed;
    var hi, lo := And(c, 0x3e000000), And(c, 0x1ffffff);
    HighAndLow(c);
    TopStep(m, c);
    LowStep(m, lo, v);
    XorZero(v);
    StepLinear(hi, lo, 0, v);
    RemainderLinear(m, Step(hi, 0), Step(lo, v));
    RemainderLinear(m, hi, lo);
    var x, y := RemainderAt(m, hi), RemainderAt(m, lo);
    ShiftLinear(m, x, y);
    XorAssoc(Shift(m, x), Shift(m, y), Embed(v));
  }

  /** The remainder of a list has the list's own value at every root. */
  lemma {:induction false} RunValue(m: nat, d: seq<bv32>)
    requires IsRoot(m) && AllFive(d)
    ensures RemainderAt(m, Run(0, d)) == ValueAt(m, d)
  {
    hide Step, RemainderAt, Shift, Xor, Embed;
    if d == [] {
      NoRemainder(m);
    } else {
      var n := |d| - 1;
      RunValue(m, d[..n]);
      RunSmall(0, d[..n]);
      StepValue(m, Run(0, d[..n]), d[n]);
    }
  }

  lemma NoRemainder(m: nat)
    ensures RemainderAt(m, 0) == 0
  {
    hide ValueAt, Shift;
    GroupsAre(0);
    assert Groups(0, 6) == [0] + ZeroValues(5);
    ValueOfX(m, 0, 5);
    EmbedZero();
    ShiftLinear(5 * m, 0, 0);
  }

  // ---------- a few errors ----------

  /** v at place i, zero elsewhere. */
  ghost function Spike(n: nat, i: nat, v: bv32): (r: seq<bv32>)
    requires i < n
    ensures |r| == n && forall p :: 0 <= p < n ==> r[p] == if p == i then v else 0
  {
    ZeroValues(i) + ([v] + ZeroValues(n - 1 - i))
  }

  lemma {:induction false} ValueOfSpike(m: nat, n: nat, i: nat, v: bv32)
    requires i < n
    ensures ValueAt(m, Spike(n, i, v)) == Shift((n - 1 - i) * m, Embed(v))
    decreases i
  {
    hide Shift, Embed, ValueAt;
    if i == 0 {
      assert Spike(n, 0, v) == [v] + ZeroValues(n - 1);
      ValueOfX(m, v, n - 1);
    } else {
      ValueOfSpike(m, n - 1, i - 1, v);
      assert Spike(n, i, v) == [0] + Spike(n - 1, i - 1, v);
      ValueLeading(m, Spike(n - 1, i - 1, v));
    }
  }

  /** Nothing but zeros outside three places. */
  ghost predicate Within(d: seq<bv32>, i: nat, j: nat, k: nat) {
    forall p :: 0 <= p < |d| && p != i && p != j && p != k ==> d[p] == 0
  }

  lemma SpikesAdd(d: seq<bv32>, i: nat, j: nat, k: nat)
    requires i < j < k < |d| && Within(d, i, j, k)
    ensures d == XorAll(XorAll(Spike(|d|, i, d[i]), Spike(|d|, j, d[j])), Spike(|d|, k, d[k]))
  {
    hide Xor, Spike;
    var a, b, c := Spike(|d|, i, d[i]), Spike(|d|, j, d[j]), Spike(|d|, k, d[k]);
    forall p | 0 <= p < |d|
      ensures Xor(Xor(a[p], b[p]), c[p]) == d[p]
    {
      XorZero(d[p]);
      XorZero(0);
    }
    assert XorAll(XorAll(a, b), c) == d;
  }

  /** z^n + 1 times v. */
  ghost function Gap(n: nat, v: bv32): bv32 { Xor(Shift(n, v), v) }

  lemma GapTwice(n: nat, v: bv32)
    ensures Gap(2 * n, v) == Gap(n, Gap(n, v))
  {
    hide Shift, Xor;
    ShiftLinear(n, Shift(n, v), v);
    ShiftAdd(n, n, v);
    assert n + n == 2 * n;
    var a, b := Shift(2 * n, v), Shift(n, v);
    XorAssoc(a, b, Xor(b, v));
    XorAssoc(b, b, v);
    XorZero(b);
    XorZero(v);
  }

  lemma GapZero(n: nat, v: bv32)
    requires 0 < n < 1023 && v < 1024 && Gap(n, v) == 0
    ensures v == 0
  {
    hide Shift, Xor;
    XorEqual(Shift(n, v), v);
    NoShortPeriod(n, v);
  }

  lemma GapSmall(n: nat, v: bv32)
    requires v < 1024
    ensures Gap(n, v) < 1024
  {
    hide Shift, Xor;
    ShiftSmall(n, v);
    XorSmall(Shift(n, v), v);
  }

  /** Three terms that vanish together with their first two moments are all zero. */
  lemma ThreeTerms(p: nat, q: nat, x: bv32, y: bv32, w: bv32)
    requires 0 < q < p < 1023 && x < 1024 && y < 1024 && w < 1024
    requires Xor(Xor(x, y), w) == 0
    requires Xor(Xor(Shift(p, x), Shift(q, y)), w) == 0
    requires Xor(Xor(Shift(2 * p, x), Shift(2 * q, y)), w) == 0
    ensures x == 0 && y == 0 && w == 0
  {
    hide Shift, Xor, Gap;
    Eliminate(Shift(p, x), Shift(q, y), x, y, w);
    Eliminate(Shift(2 * p, x), Shift(2 * q, y), x, y, w);
    GapIs(p, x);
    GapIs(q, y);
    GapIs(2 * p, x);
    GapIs(2 * q, y);
    var u := Gap(p, x);
    GapTwice(p, x);
    GapTwice(q, y);
    GapSmall(p, x);
    SameGap(p, q, u);
    GapZero(p, x);
    GapZero(q, y);
    XorZero(0);
    XorZero(w);
  }

  lemma GapIs(n: nat, v: bv32)
    ensures Gap(n, v) == Xor(Shift(n, v), v)
  {
  }

  /** Subtracting the first equation. */
  lemma Eliminate(a: bv32, b: bv32, x: bv32, y: bv32, w: bv32)
    requires Xor(Xor(x, y), w) == 0 && Xor(Xor(a, b), w) == 0
    ensures Xor(a, x) == Xor(b, y)
  {
    hide Xor;
    XorEqual(Xor(x, y), w);
    XorEqual(Xor(a, b), w);
    XorEqual(Xor(a, b), Xor(x, y));
    XorSwap(a, b, x, y);
    XorEqual(Xor(a, x), Xor(b, y));
  }

  lemma SameGap(p: nat, q: nat, u: bv32)
    requires q < p < 1023 && u < 1024 && Gap(p, u) == Gap(q, u)
    ensures u == 0
  {
    hide Shift, Xor;
    XorCancel(Shift(p, u), Shift(q, u), u);
    ShiftAdd(q, p - q, u);
    ShiftSmall(p - q, u);
    ShiftInjective(q, Shift(p - q, u), u);
    NoShortPeriod(p - q, u);
  }

  lemma XorCancel(a: bv32, b: bv32, u: bv32)
    requires Xor(a, u) == Xor(b, u)
    ensures a == b
  {
    hide Xor;
    XorAssoc(a, u, u);
    XorAssoc(b, u, u);
    XorZero(u);
    XorZero(a);
    XorZero(b);
  }

  /** The term of place i at z^24. */
  ghost function Term(d: seq<bv32>, i: nat): bv32
    requires i < |d|
  {
    Shift((|d| - 1 - i) * 24, Embed(d[i]))
  }

  /** Shifted s times by g. */
  ghost function Moved(s: nat, g: nat, v: bv32): bv32 {
    MulMono(s, 0, g);
    Shift(s * g, v)
  }

  lemma MovedLittle(g: nat, v: bv32)
    ensures Moved(0, g, v) == v && Moved(1, g, v) == Shift(g, v) && Moved(2, g, v) == Shift(2 * g, v)
  {
    hide Shift;
    assert 0 * g == 0 && 1 * g == g;
    ShiftNone(v);
  }

  lemma TermSmall(d: seq<bv32>, i: nat)
    requires i < |d| && AllFive(d)
    ensures Term(d, i) < 1024 && (Term(d, i) == 0 ==> d[i] == 0)
  {
    hide Shift, Embed;
    EmbedSmall(d[i]);
    ShiftSmall((|d| - 1 - i) * 24, Embed(d[i]));
  }

  lemma MovedSmall(s: nat, g: nat, v: bv32)
    requires v < 1024
    ensures Moved(s, g, v) < 1024 && (Moved(s, g, v) == 0 ==> v == 0)
  {
    hide Shift;
    MulMono(s, 0, g);
    ShiftSmall(s * g, v);
  }

  lemma MovedLinear(s: nat, g: nat, v: bv32, w: bv32)
    ensures Moved(s, g, Xor(v, w)) == Xor(Moved(s, g, v), Moved(s, g, w))
  {
    hide Shift, Xor;
    MulMono(s, 0, g);
    ShiftLinear(s * g, v, w);
  }

  /** The term of place i at z^(24 + s), by way of place k. */
  lemma TermAt(d: seq<bv32>, i: nat, k: nat, s: nat)
    requires i <= k < |d|
    ensures ValueAt(24 + s, Spike(|d|, i, d[i])) == Moved(s, |d| - 1 - k, Moved(s, k - i, Term(d, i)))
  {
    hide Shift, Embed, ValueAt, Spike;
    var n, v := |d| - 1, Embed(d[i]);
    ValueOfSpike(24 + s, |d|, i, d[i]);
    MulMono(s, 0, n - k);
    MulMono(s, 0, k - i);
    var a, b, c := s * (n - k), s * (k - i), (n - i) * 24;
    assert (n - i) * (24 + s) == a + (b + c) by {
      MulDist(n - i, 24, s);
      MulDist(s, n - k, k - i);
    }
    ShiftAdd(b, c, v);
    ShiftAdd(a, b + c, v);
  }

  /** With remainder zero, the terms vanish together with their s-th moment. */
  lemma SpikeValues(d: seq<bv32>, i: nat, j: nat, k: nat, s: nat)
    requires s <= 2 && i < j < k < |d| && AllFive(d) && Within(d, i, j, k) && Run(0, d) == 0
    ensures Xor(Xor(Moved(s, k - i, Term(d, i)), Moved(s, k - j, Term(d, j))), Term(d, k)) == 0
  {
    hide Xor, ValueAt, XorAll, Spike, RemainderAt, Run, Term, Moved, Within;
    RunValue(24 + s, d);
    NoRemainder(24 + s);
    SpikesAdd(d, i, j, k);
    var a, b, c := Spike(|d|, i, d[i]), Spike(|d|, j, d[j]), Spike(|d|, k, d[k]);
    ValueLinear(24 + s, XorAll(a, b), c);
    ValueLinear(24 + s, a, b);
    TermAt(d, i, k, s);
    TermAt(d, j, k, s);
    TermAt(d, k, k, s);
    var x, y, w := Moved(s, k - i, Term(d, i)), Moved(s, k - j, Term(d, j)), Term(d, k);
    MovedNowhere(s, w);
    MovedLinear(s, |d| - 1 - k, x, y);
    MovedLinear(s, |d| - 1 - k, Xor(x, y), w);
    TermSmall(d, i);
    TermSmall(d, j);
    TermSmall(d, k);
    MovedSmall(s, k - i, Term(d, i));
    MovedSmall(s, k - j, Term(d, j));
    XorSmall(x, y);
    XorSmall(Xor(x, y), w);
    MovedSmall(s, |d| - 1 - k, Xor(Xor(x, y), w));
  }

  lemma MovedNowhere(s: nat, v: bv32)
    ensures Moved(s, 0, v) == v
  {
    assert s * 0 == 0;
  }

  /** No list with its nonzero values in three places, within 1023 of each other, has
      remainder zero. */
  lemma NoZeroRemainder(d: seq<bv32>, i: nat, j: nat, k: nat)
    requires i < j < k < |d| && k - i < 1023 && AllFive(d) && Within(d, i, j, k) && Run(0, d) == 0
    ensures d[i] == 0 && d[j] == 0 && d[k] == 0
  {
    hide Shift, Xor, Run, Term, Moved, Within;
    SpikeValues(d, i, j, k, 0);
    SpikeValues(d, i, j, k, 1);
    SpikeValues(d, i, j, k, 2);
    MovedLittle(k - i, Term(d, i));
    MovedLittle(k - j, Term(d, j));
    TermSmall(d, i);
    TermSmall(d, j);
    TermSmall(d, k);
    ThreeTerms(k - i, k - j, Term(d, i), Term(d, j), Term(d, k));
  }

  lemma SameRemainder(c: bv32, x: seq<bv32>, y: seq<bv32>, i: nat, j: nat, k: nat)
    requires |x| == |y| && AllFive(x) && AllFive(y) && Run(c, x) == Run(c, y)
    requires i < j < k < |x| && k - i < 1023
    requires forall p :: 0 <= p < |x| && p != i && p != j && p != k ==> x[p] == y[p]
    ensures x == y
  {
    hide Run, Xor, XorAll;
    var d := XorAll(x, y);
    XorAllFive(x, y);
    XorZero(c);
    RunLinear(c, c, x, y);
    XorEqual(Run(c, x), Run(c, y));
    NoZeroRemainder(d, i, j, k);
    assert forall p :: 0 <= p < |x| ==> d[p] == 0;
  }

  /** Two lists that differ, but only in three places within a window of 1023, never
      have the same remainder. */
  lemma ErrorsDetected(c: bv32, x: seq<bv32>, y: seq<bv32>, i: nat, j: nat, k: nat)
    requires |x| == |y| && AllFive(x) && AllFive(y) && x != y
    requires i < j < k < |x| && k - i < 1023
    requires forall p :: 0 <= p < |x| && p != i && p != j && p != k ==> x[p] == y[p]
    ensures Run(c, x) != Run(c, y)
  {
    hide Run, AllFive;
    if Run(c, x) == Run(c, y) { SameRemainder(c, x, y, i, j, k); }
  }

  /** A valid list with up to three values changed, within a window of 1023, is no
      longer valid. */
  lemma ErrorsRejected(hrp: string, x: seq<bv32>, y: seq<bv32>, i: nat, j: nat, k: nat)
    requires |x| == |y| && AllFive(x) && AllFive(y) && x != y
    requires i < j < k < |x| && k - i < 1023
    requires forall p :: 0 <= p < |x| && p != i && p != j && p != k ==> x[p] == y[p]
    requires Run(1, Expand(hrp) + x) == 1
    ensures Run(1, Expand(hrp) + y) != 1
  {
    hide Run, Expand;
    RunAppend(1, Expand(hrp), x);
    RunAppend(1, Expand(hrp), y);
    ErrorsDetected(Run(1, Expand(hrp)), x, y, i, j, k);
  }
}
