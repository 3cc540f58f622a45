/** Bech32 (BIP 173): a checksummed text form of 5-bit values with a readable prefix. */
module Bech32 {
  import opened Options

  // ---------- the checksum polynomial ----------

  function Xor(x: bv32, y: bv32): bv32 { x ^ y }

  /** Multiply by x, without the term that falls off the top. */
  function Shifted(c: bv32): bv32 { (c & 0x1ffffff) << 5 }

  /** What bit n of the top coefficient adds back: {2^n}k(x). */
  function Tap(c: bv32, n: nat): bv32 {
    if n == 0 then If(c, 0x2000000, 0x3b6a57b2)
    else if n == 1 then If(c, 0x4000000, 0x26508e6d)
    else if n == 2 then If(c, 0x8000000, 0x1ea119fa)
    else if n == 3 then If(c, 0x10000000, 0x3d4233dd)
    else If(c, 0x20000000, 0x2a1462b3)
  }

  function If(c: bv32, bit: bv32, k: bv32): bv32 {
    if And(c, bit) != 0 then k else 0
  }

  function And(x: bv32, y: bv32): bv32 { x & y }

  function Up(c: bv32): bv32 { c << 5 }

  function Down(c: bv32): bv32 { c >> 5 }

  function Taps(c: bv32, n: nat): bv32 {
    if n == 0 then 0 else Xor(Taps(c, n - 1), Tap(c, n - 1))
  }

  /** c(x) * x + v modulo the generator, on packed 5-bit coefficients. */
  function Step(c: bv32, v: bv32): bv32 {
    Xor(Xor(Shifted(c), v), Taps(c, 5))
  }

  function Run(c: bv32, vs: seq<bv32>): bv32 {
    if vs == [] then c else Step(Run(c, vs[..|vs| - 1]), vs[|vs| - 1])
  }

  function XorAll(x: seq<bv32>, y: seq<bv32>): (r: seq<bv32>)
    requires |x| == |y|
    ensures |r| == |x|
  {
    seq(|x|, i requires 0 <= i < |x| => Xor(x[i], y[i]))
  }

  lemma XorAssoc(a: bv32, b: bv32, c: bv32)
    ensures Xor(Xor(a, b), c) == Xor(a, Xor(b, c))
  {
  }

  lemma XorComm(a: bv32, b: bv32)
    ensures Xor(a, b) == Xor(b, a)
  {
  }

  lemma XorZero(a: bv32)
    ensures Xor(a, 0) == a && Xor(0, a) == a && Xor(a, a) == 0
  {
  }

  lemma XorSwap(a: bv32, b: bv32, c: bv32, d: bv32)
    ensures Xor(Xor(a, b), Xor(c, d)) == Xor(Xor(a, c), Xor(b, d))
  {
    hide Xor;
    XorAssoc(a, b, Xor(c, d));
    XorAssoc(b, c, d);
    XorComm(b, c);
    XorAssoc(c, b, d);
    XorAssoc(a, c, Xor(b, d));
  }

  lemma ShiftedLinear(c: bv32, d: bv32)
    ensures Shifted(Xor(c, d)) == Xor(Shifted(c), Shifted(d))
  {
  }

  lemma AndXor(c: bv32, d: bv32, bit: bv32)
    ensures And(Xor(c, d), bit) == Xor(And(c, bit), And(d, bit))
  {
  }

  ghost predicate OneBit(bit: bv32) {
    bit != 0 && forall c :: And(c, bit) == 0 || And(c, bit) == bit
  }

  lemma IfLinear(c: bv32, d: bv32, bit: bv32, k: bv32)
    requires OneBit(bit)
    ensures If(Xor(c, d), bit, k) == Xor(If(c, bit, k), If(d, bit, k))
  {
    hide Xor, And;
    AndXor(c, d, bit);
    XorZero(bit);
    XorZero(k);
    XorZero(0);
  }

  lemma TopBits()
    ensures OneBit(0x2000000) && OneBit(0x4000000) && OneBit(0x8000000)
    ensures OneBit(0x10000000) && OneBit(0x20000000)
  {
  }

  lemma TapLinear(c: bv32, d: bv32, n: nat)
    ensures Tap(Xor(c, d), n) == Xor(Tap(c, n), Tap(d, n))
  {
    hide Xor, If, OneBit;
    TopBits();
    IfLinear(c, d, 0x2000000, 0x3b6a57b2);
    IfLinear(c, d, 0x4000000, 0x26508e6d);
    IfLinear(c, d, 0x8000000, 0x1ea119fa);
    IfLinear(c, d, 0x10000000, 0x3d4233dd);
    IfLinear(c, d, 0x20000000, 0x2a1462b3);
  }

  lemma {:induction false} TapsLinear(c: bv32, d: bv32, n: nat)
    ensures Taps(Xor(c, d), n) == Xor(Taps(c, n), Taps(d, n))
  {
    hide Xor, Tap;
    if n == 0 {
      XorZero(0);
    } else {
      TapsLinear(c, d, n - 1);
      TapLinear(c, d, n - 1);
      XorSwap(Taps(c, n - 1), Taps(d, n - 1), Tap(c, n - 1), Tap(d, n - 1));
    }
  }

  lemma StepLinear(c: bv32, d: bv32, v: bv32, w: bv32)
    ensures Step(Xor(c, d), Xor(v, w)) == Xor(Step(c, v), Step(d, w))
  {
    hide Xor, Shifted, Taps;
    ShiftedLinear(c, d);
    TapsLinear(c, d, 5);
    XorSwap(Shifted(c), Shifted(d), v, w);
    XorSwap(Xor(Shifted(c), v), Xor(Shifted(d), w), Taps(c, 5), Taps(d, 5));
  }

  lemma TapsAre(c: bv32)
    ensures Taps(c, 5) == Xor(Xor(Xor(Xor(Xor(0, Tap(c, 0)), Tap(c, 1)), Tap(c, 2)), Tap(c, 3)), Tap(c, 4))
  {
    hide Xor, Tap;
    assert Taps(c, 3) == Xor(Taps(c, 2), Tap(c, 2));
    assert Taps(c, 1) == Xor(Taps(c, 0), Tap(c, 0));
  }

  /** 30 bits stay 30 bits. */
  lemma StepSmall(c: bv32, v: bv32)
    requires c < 0x40000000 && v < 32
    ensures Step(c, v) < 0x40000000
  {
    hide Taps;
    TapsAre(c);
  }

  /** Multiplying by x loses nothing: the generator's constant term is a unit. */
  lemma StepInjective(c: bv32)
    requires c < 0x40000000 && Step(c, 0) == 0
    ensures c == 0
  {
    hide Taps;
    TapsAre(c);
  }

  // ---------- running it over a list ----------

  ghost predicate AllFive(vs: seq<bv32>) {
    forall i :: 0 <= i < |vs| ==> vs[i] < 32
  }

  function ZeroValues(n: nat): (r: seq<bv32>)
    ensures |r| == n && forall i :: 0 <= i < n ==> r[i] == 0
  {
    seq(n, _ => 0)
  }

  lemma {:induction false} RunAppend(c: bv32, x: seq<bv32>, y: seq<bv32>)
    ensures Run(c, x + y) == Run(Run(c, x), y)
  {
    hide Step;
    if y == [] {
      assert x + y == x;
    } else {
      RunAppend(c, x, y[..|y| - 1]);
      assert (x + y)[..|x + y| - 1] == x + y[..|y| - 1];
    }
  }

  lemma {:induction false} RunSmall(c: bv32, vs: seq<bv32>)
    requires c < 0x40000000 && AllFive(vs)
    ensures Run(c, vs) < 0x40000000
  {
    hide Step;
    if vs != [] {
      RunSmall(c, vs[..|vs| - 1]);
      StepSmall(Run(c, vs[..|vs| - 1]), vs[|vs| - 1]);
    }
  }

  lemma {:induction false} RunLinear(c: bv32, d: bv32, x: seq<bv32>, y: seq<bv32>)
    requires |x| == |y|
    ensures Run(Xor(c, d), XorAll(x, y)) == Xor(Run(c, x), Run(d, y))
  {
    hide Step, Xor;
    if x != [] {
      var n := |x| - 1;
      RunLinear(c, d, x[..n], y[..n]);
      assert XorAll(x, y)[..n] == XorAll(x[..n], y[..n]);
      StepLinear(Run(c, x[..n]), Run(d, y[..n]), x[n], y[n]);
    }
  }

  lemma StepZero()
    ensures Step(0, 0) == 0
  {
    hide Step;
    StepLow(0, 0);
  }

  lemma {:induction false} RunZeros(n: nat)
    ensures Run(0, ZeroValues(n)) == 0
  {
    hide Step;
    if n > 0 {
      assert ZeroValues(n)[..n - 1] == ZeroValues(n - 1);
      RunZeros(n - 1);
      StepZero();
    }
  }

  /** Zeros after a difference never cancel it. */
  lemma {:induction false} RunTail(c: bv32, n: nat)
    requires 0 < c < 0x40000000
    ensures 0 < Run(c, ZeroValues(n)) < 0x40000000
  {
    hide Step;
    if n > 0 {
      assert ZeroValues(n)[..n - 1] == ZeroValues(n - 1);
      RunTail(c, n - 1);
      StepSmall(Run(c, ZeroValues(n - 1)), 0);
      if Step(Run(c, ZeroValues(n - 1)), 0) == 0 { StepInjective(Run(c, ZeroValues(n - 1))); }
    }
  }

  /** The bits that n packed values take. */
  function Limit(n: nat): bv32 {
    if n == 0 then 1 else if n == 1 then 0x20 else if n == 2 then 0x400 else if n == 3 then 0x8000
    else if n == 4 then 0x100000 else if n == 5 then 0x2000000 else 0x40000000
  }

  lemma StepLow(c: bv32, v: bv32)
    requires c < 0x2000000
    ensures Step(c, v) == Xor(Up(c), v)
  {
    hide Xor, Shifted, Taps, Up;
    NoTaps(c, 5);
    ShiftedLow(c);
    XorZero(Xor(Up(c), v));
  }

  lemma ShiftedLow(c: bv32)
    requires c < 0x2000000
    ensures Shifted(c) == Up(c)
  {
  }

  lemma NoTap(c: bv32, n: nat)
    requires c < 0x2000000
    ensures Tap(c, n) == 0
  {
  }

  lemma {:induction false} NoTaps(c: bv32, n: nat)
    requires c < 0x2000000
    ensures Taps(c, n) == 0
  {
    hide Xor, Tap;
    if n > 0 {
      NoTaps(c, n - 1);
      NoTap(c, n - 1);
      XorZero(0);
    }
  }

  lemma PackedStep(c: bv32, v: bv32, n: nat)
    requires n < 6 && c < Limit(n) && v < 32
    ensures Step(c, v) < Limit(n + 1) && (Step(c, v) == 0 <==> c == 0 && v == 0)
  {
    hide Step;
    StepLow(c, v);
  }

  /** Up to six values are just packed together. */
  lemma {:induction false} Packs(w: seq<bv32>)
    requires |w| <= 6 && AllFive(w)
    ensures Run(0, w) < Limit(|w|)
    ensures Run(0, w) == 0 ==> w == ZeroValues(|w|)
  {
    hide Step, Limit;
    if w == [] {
      LimitOne();
    } else {
      var n := |w| - 1;
      Packs(w[..n]);
      PackedStep(Run(0, w[..n]), w[n], n);
      assert w == w[..n] + [w[n]];
    }
  }

  lemma LimitOne()
    ensures Limit(0) == 1
  {
  }

  lemma XorFive(x: bv32, y: bv32)
    requires x < 32 && y < 32
    ensures Xor(x, y) < 32 && (Xor(x, y) == 0 <==> x == y)
  {
  }

  lemma XorEqual(x: bv32, y: bv32)
    ensures Xor(x, y) == 0 <==> x == y
  {
    hide Xor;
    XorZero(x);
    XorZero(y);
    XorAssoc(x, y, y);
  }

  lemma XorAllFive(x: seq<bv32>, y: seq<bv32>)
    requires |x| == |y| && AllFive(x) && AllFive(y)
    ensures AllFive(XorAll(x, y))
    ensures forall k :: 0 <= k < |x| ==> (XorAll(x, y)[k] == 0 <==> x[k] == y[k])
  {
    hide Xor;
    forall k | 0 <= k < |x|
      ensures Xor(x[k], y[k]) < 32 && (Xor(x[k], y[k]) == 0 <==> x[k] == y[k])
    {
      XorFive(x[k], y[k]);
    }
  }

  /** Different lists of up to six values leave different remainders. */
  lemma WindowDiffers(c: bv32, u: seq<bv32>, v: seq<bv32>)
    requires |u| == |v| <= 6 && AllFive(u) && AllFive(v) && u != v
    ensures 0 < Xor(Run(c, u), Run(c, v)) < 0x40000000
  {
    hide Run, Xor, XorAll, Limit;
    var d := XorAll(u, v);
    XorAllFive(u, v);
    XorZero(c);
    RunLinear(c, c, u, v);
    Packs(d);
    LimitTop(|d|);
    var k :| 0 <= k < |u| && u[k] != v[k];
    assert d[k] != 0;
  }

  /** The same values after different remainders keep them different. */
  lemma TailDiffers(a: bv32, b: bv32, t: seq<bv32>)
    requires 0 < Xor(a, b) < 0x40000000
    ensures Run(a, t) != Run(b, t)
  {
    hide Run, Xor, XorAll;
    RunLinear(a, b, t, t);
    SelfXor(t);
    RunTail(Xor(a, b), |t|);
    XorEqual(Run(a, t), Run(b, t));
  }

  lemma SelfXor(t: seq<bv32>)
    ensures XorAll(t, t) == ZeroValues(|t|)
  {
    hide Xor;
    forall k | 0 <= k < |t|
      ensures Xor(t[k], t[k]) == 0
    {
      XorZero(t[k]);
    }
  }

  /** Two lists that differ, but only within six consecutive places, never have
      the same remainder. */
  lemma BurstDetected(c: bv32, before: seq<bv32>, u: seq<bv32>, v: seq<bv32>, after: seq<bv32>)
    requires |u| == |v| <= 6 && AllFive(u) && AllFive(v) && u != v
    ensures Run(c, before + (u + after)) != Run(c, before + (v + after))
  {
    hide Run, Xor;
    RunAppend(c, before, u + after);
    RunAppend(c, before, v + after);
    var r := Run(c, before);
    RunAppend(r, u, after);
    RunAppend(r, v, after);
    WindowDiffers(r, u, v);
    TailDiffers(Run(r, u), Run(r, v), after);
  }

  lemma LimitTop(n: nat)
    ensures Limit(n) <= 0x40000000
  {
  }

  // ---------- the checksum ----------

  /** (m >> (5 * (5 - i))) & 31. */
  function Group(m: bv32, i: nat): bv32 {
    And(if i == 0 then m >> 25 else if i == 1 then m >> 20 else if i == 2 then m >> 15
        else if i == 3 then m >> 10 else if i == 4 then m >> 5 else m, 31)
  }

  /** The n lowest 5-bit groups, highest first. */
  function Groups(m: bv32, n: nat): (r: seq<bv32>)
    ensures |r| == n
    decreases n
  {
    if n == 0 then [] else Groups(Down(m), n - 1) + [And(m, 31)]
  }

  lemma AndFive(m: bv32)
    ensures And(m, 31) < 32
  {
  }

  lemma {:induction false} GroupsFive(m: bv32, n: nat)
    ensures AllFive(Groups(m, n))
    decreases n
  {
    hide And, Down;
    if n > 0 {
      GroupsFive(Down(m), n - 1);
      AndFive(m);
    }
  }

  lemma LowGroup(m: bv32)
    ensures Xor(Up(Down(m)), And(m, 31)) == m
  {
  }

  lemma LimitShift(m: bv32, n: nat)
    requires 0 < n <= 6 && m < Limit(n)
    ensures Down(m) < Limit(n - 1) && Down(m) < 0x2000000
  {
  }

  lemma RunSnoc(c: bv32, vs: seq<bv32>, v: bv32)
    ensures Run(c, vs + [v]) == Step(Run(c, vs), v)
  {
    assert (vs + [v])[..|vs|] == vs;
  }

  /** Running over the groups puts the number back together. */
  lemma {:induction false} GroupsPack(m: bv32, n: nat)
    requires n <= 6 && m < Limit(n)
    ensures Run(0, Groups(m, n)) == m
    decreases n
  {
    hide Step, Run, Xor, And, Up, Down, Limit;
    if n == 0 {
      LimitOne();
      RunNone(0);
    } else {
      LimitShift(m, n);
      GroupsPack(Down(m), n - 1);
      RunSnoc(0, Groups(Down(m), n - 1), And(m, 31));
      StepLow(Down(m), And(m, 31));
      LowGroup(m);
    }
  }

  lemma Shifts(m: bv32)
    ensures Down(m) == m >> 5 && Down(m >> 5) == m >> 10 && Down(m >> 10) == m >> 15
    ensures Down(m >> 15) == m >> 20 && Down(m >> 20) == m >> 25
  {
  }

  lemma GroupsLast(m: bv32, n: nat)
    requires n > 0
    ensures Groups(m, n) == Groups(Down(m), n - 1) + [And(m, 31)] && Groups(m, 0) == []
  {
  }

  lemma GroupsAre(m: bv32)
    ensures Groups(m, 6) == [Group(m, 0), Group(m, 1), Group(m, 2), Group(m, 3), Group(m, 4), Group(m, 5)]
  {
    hide And, Down, Groups;
    Shifts(m);
    GroupsLast(m, 6);
    GroupsLast(m >> 5, 5);
    GroupsLast(m >> 10, 4);
    GroupsLast(m >> 15, 3);
    GroupsLast(m >> 20, 2);
    GroupsLast(m >> 25, 1);
  }

  lemma RunNone(c: bv32)
    ensures Run(c, []) == c
  {
  }

  ghost function Checksum(enc: seq<bv32>): (r: seq<bv32>)
    ensures |r| == 6
  {
    Groups(Xor(Run(1, enc + ZeroValues(6)), 1), 6)
  }

  /** The checksum completes any list to remainder 1. */
  lemma ChecksumVerifies(enc: seq<bv32>)
    requires AllFive(enc)
    ensures AllFive(Checksum(enc)) && Run(1, enc + Checksum(enc)) == 1
  {
    hide Run, Xor, Groups;
    var z := enc + ZeroValues(6);
    var rem := Run(1, z);
    var m := Xor(rem, 1);
    var k := Groups(m, 6);
    RunSmall(1, z);
    XorOne(rem);
    GroupsFive(m, 6);
    GroupsPack(m, 6);
    // enc + k is z with k xored into its last six places.
    var d := ZeroValues(|enc|) + k;
    assert enc + k == XorAll(z, d) by { Completed(enc, k); }
    RunLinear(1, 0, z, d);
    XorZero(1);
    RunAppend(0, ZeroValues(|enc|), k);
    RunZeros(|enc|);
  }

  lemma XorOne(x: bv32)
    requires x < 0x40000000
    ensures Xor(x, 1) < 0x40000000 && Xor(x, Xor(x, 1)) == 1
  {
  }

  lemma Completed(enc: seq<bv32>, k: seq<bv32>)
    requires |k| == 6
    ensures XorAll(enc + ZeroValues(6), ZeroValues(|enc|) + k) == enc + k
  {
    hide Xor;
    forall i | 0 <= i < |enc| + 6
      ensures Xor((enc + ZeroValues(6))[i], (ZeroValues(|enc|) + k)[i]) == (enc + k)[i]
    {
      if i < |enc| { XorZero(enc[i]); } else { XorZero(k[i - |enc|]); }
    }
  }

  /** And it is the only one that does. */
  lemma ChecksumUnique(enc: seq<bv32>, k: seq<bv32>)
    requires AllFive(enc) && AllFive(k) && |k| == 6
    ensures Run(1, enc + k) == 1 <==> k == Checksum(enc)
  {
    hide Run, Checksum;
    ChecksumVerifies(enc);
    if k != Checksum(enc) {
      assert k + [] == k && Checksum(enc) + [] == Checksum(enc);
      BurstDetected(1, enc, k, Checksum(enc), []);
    }
  }

  // ---------- the text ----------

  /** Character n of "qpzry9x8gf2tvdw0s3jn54khce6mua7l". */
  function Charset(n: nat): char {
    if n == 0 then 'q' else if n == 1 then 'p' else if n == 2 then 'z' else if n == 3 then 'r' else
    if n == 4 then 'y' else if n == 5 then '9' else if n == 6 then 'x' else if n == 7 then '8' else
    if n == 8 then 'g' else if n == 9 then 'f' else if n == 10 then '2' else if n == 11 then 't' else
    if n == 12 then 'v' else if n == 13 then 'd' else if n == 14 then 'w' else if n == 15 then '0' else
    if n == 16 then 's' else if n == 17 then '3' else if n == 18 then 'j' else if n == 19 then 'n' else
    if n == 20 then '5' else if n == 21 then '4' else if n == 22 then 'k' else if n == 23 then 'h' else
    if n == 24 then 'c' else if n == 25 then 'e' else if n == 26 then '6' else if n == 27 then 'm' else
    if n == 28 then 'u' else if n == 29 then 'a' else if n == 30 then '7' else 'l'
  }

  function RevLower(c: char): int {
    if c == 'q' then 0 else if c == 'p' then 1 else if c == 'z' then 2 else if c == 'r' then 3 else
    if c == 'y' then 4 else if c == '9' then 5 else if c == 'x' then 6 else if c == '8' then 7 else
    if c == 'g' then 8 else if c == 'f' then 9 else if c == '2' then 10 else if c == 't' then 11 else
    if c == 'v' then 12 else if c == 'd' then 13 else if c == 'w' then 14 else if c == '0' then 15 else
    if c == 's' then 16 else if c == '3' then 17 else if c == 'j' then 18 else if c == 'n' then 19 else
    if c == '5' then 20 else if c == '4' then 21 else if c == 'k' then 22 else if c == 'h' then 23 else
    if c == 'c' then 24 else if c == 'e' then 25 else if c == '6' then 26 else if c == 'm' then 27 else
    if c == 'u' then 28 else if c == 'a' then 29 else if c == '7' then 30 else if c == 'l' then 31 else -1
  }

  function LowerCase(c: char): char {
    if 'A' <= c <= 'Z' then 'a' + (c - 'A') else c
  }

  /** The value of a character of either case, or -1. */
  function Rev(c: char): int { RevLower(LowerCase(c)) }

  predicate Printable(c: char) { 33 <= c as int <= 126 }

  lemma RevCharset(n: nat)
    requires n < 32
    ensures RevLower(Charset(n)) == n
    ensures Charset(n) != '1' && Printable(Charset(n)) && !('A' <= Charset(n) <= 'Z')
  {
  }

  lemma CharsetRev(c: char)
    requires RevLower(c) != -1
    ensures 0 <= RevLower(c) < 32 && Charset(RevLower(c)) == c && c != '1'
  {
  }

  lemma IntOfBits(v: bv32)
    requires v < 32
    ensures v as int < 32 && (v as int) as bv32 == v
  {
  }

  lemma BitsOfInt(n: nat)
    requires n < 32
    ensures (n as bv32) as int == n && n as bv32 < 32
  {
  }

  function Symbol(v: bv32): char { Charset(v as int) }

  ghost function Symbols(vs: seq<bv32>): (r: string)
    ensures |r| == |vs|
  {
    seq(|vs|, i requires 0 <= i < |vs| => Symbol(vs[i]))
  }

  function ValueOf(c: char): bv32
    requires Rev(c) >= 0
  {
    var n := Rev(c);
    assert n < 32 by { CharsetRev(LowerCase(c)); }
    n as bv32
  }

  ghost predicate InCharset(s: string) {
    forall i :: 0 <= i < |s| ==> Rev(s[i]) >= 0
  }

  ghost function Values(s: string): (r: seq<bv32>)
    requires InCharset(s)
    ensures |r| == |s|
  {
    seq(|s|, i requires 0 <= i < |s| => ValueOf(s[i]))
  }

  ghost function Lower(s: string): (r: string)
    ensures |r| == |s|
  {
    seq(|s|, i requires 0 <= i < |s| => LowerCase(s[i]))
  }

  /** c >> 5 and c & 31 of a byte. */
  function High(c: char): bv32 { (c as int / 32 % 8) as bv32 }

  function Low(c: char): bv32 { (c as int % 32) as bv32 }

  /** The readable part as it enters the checksum. */
  ghost function Expand(hrp: string): (r: seq<bv32>)
    ensures |r| == 2 * |hrp| + 1
  {
    seq(|hrp|, i requires 0 <= i < |hrp| => High(hrp[i])) + [0]
    + seq(|hrp|, i requires 0 <= i < |hrp| => Low(hrp[i]))
  }

  ghost function Encoded(hrp: string, values: seq<bv32>): string {
    hrp + "1" + Symbols(values + Checksum(Expand(hrp) + values))
  }

  predicate IsLower(c: char) { 'a' <= c <= 'z' }

  predicate IsUpper(c: char) { 'A' <= c <= 'Z' }

  ghost predicate AllPrintable(s: string) {
    forall i :: 0 <= i < |s| ==> Printable(s[i])
  }

  ghost predicate NoUpper(s: string) {
    forall i :: 0 <= i < |s| ==> !IsUpper(s[i])
  }

  ghost predicate Mixed(s: string) {
    (exists i :: 0 <= i < |s| && IsLower(s[i])) && (exists i :: 0 <= i < |s| && IsUpper(s[i]))
  }

  /** The position of the last '1', or -1. */
  function LastOne(s: string): (r: int)
    ensures -1 <= r < |s| && (r >= 0 ==> s[r] == '1')
    ensures forall k :: r < k < |s| ==> s[k] != '1'
  {
    if s == [] then -1 else if s[|s| - 1] == '1' then |s| - 1 else LastOne(s[..|s| - 1])
  }

  ghost predicate WellFormed(s: string) {
    && AllPrintable(s) && !Mixed(s) && |s| <= 90
    && LastOne(s) > 0 && LastOne(s) + 7 <= |s| && InCharset(s[LastOne(s) + 1..])
  }

  ghost function Decoded(s: string): Option<(string, seq<bv32>)> {
    if !WellFormed(s) then None else
    var pos := LastOne(s);
    var hrp, values := Lower(s[..pos]), Values(s[pos + 1..]);
    if Run(1, Expand(hrp) + values) != 1 then None else Some((hrp, values[..|values| - 6]))
  }

  // ---------- encoding and decoding are inverse ----------

  lemma ExpandFive(hrp: string)
    ensures AllFive(Expand(hrp))
  {
    hide High, Low;
    forall c: char
      ensures High(c) < 32 && Low(c) < 32
    {
      HighLow(c);
    }
  }

  lemma HighLow(c: char)
    ensures High(c) < 32 && Low(c) < 32
  {
    BitsOfInt(c as int / 32 % 8);
    BitsOfInt(c as int % 32);
  }

  lemma SymbolValue(v: bv32)
    requires v < 32
    ensures Rev(Symbol(v)) >= 0 && ValueOf(Symbol(v)) == v
    ensures Symbol(v) != '1' && Printable(Symbol(v)) && !IsUpper(Symbol(v)) && LowerCase(Symbol(v)) == Symbol(v)
  {
    hide Charset, RevLower;
    IntOfBits(v);
    RevCharset(v as int);
  }

  lemma ValueSymbol(c: char)
    requires Rev(c) >= 0
    ensures ValueOf(c) < 32 && Symbol(ValueOf(c)) == LowerCase(c) && c != '1'
  {
    hide Charset, RevLower;
    CharsetRev(LowerCase(c));
    BitsOfInt(Rev(c));
  }

  lemma ValuesSymbols(s: string)
    requires InCharset(s)
    ensures AllFive(Values(s)) && Symbols(Values(s)) == Lower(s)
  {
    hide Symbol, ValueOf, Rev, LowerCase;
    forall i | 0 <= i < |s|
      ensures ValueOf(s[i]) < 32 && Symbol(ValueOf(s[i])) == LowerCase(s[i])
    {
      ValueSymbol(s[i]);
    }
  }

  lemma LowerSymbols(s: string, vs: seq<bv32>)
    requires AllFive(vs) && Lower(s) == Symbols(vs)
    ensures InCharset(s) && Values(s) == vs
  {
    hide Symbol, ValueOf, Rev, LowerCase;
    forall i | 0 <= i < |s|
      ensures Rev(s[i]) >= 0 && ValueOf(s[i]) == vs[i]
    {
      assert Lower(s)[i] == LowerCase(s[i]) && Symbols(vs)[i] == Symbol(vs[i]);
      SymbolValue(vs[i]);
      SameLower(s[i], Symbol(vs[i]));
    }
  }

  /** Characters that agree in lower case have the same value. */
  lemma SameLower(c: char, d: char)
    requires LowerCase(c) == d && LowerCase(d) == d
    ensures Rev(c) == Rev(d) && (Rev(c) >= 0 ==> ValueOf(c) == ValueOf(d))
  {
    hide RevLower;
  }

  ghost predicate FitPrefix(hrp: string) {
    hrp != [] && AllPrintable(hrp) && NoUpper(hrp)
  }

  /** What decodes is the encoding of what it decodes to. */
  lemma DecodedIsEncoded(s: string)
    requires Decoded(s).Some?
    ensures var (hrp, v) := Decoded(s).value;
            && FitPrefix(hrp) && AllFive(v) && |s| <= 90 && !Mixed(s)
            && Lower(s) == Encoded(hrp, v)
  {
    hide Run, Checksum, Symbol, Rev, LowerCase, Expand, Mixed, Printable, IsUpper;
    var pos := LastOne(s);
    var hrp, values := Lower(s[..pos]), Values(s[pos + 1..]);
    ValuesSymbols(s[pos + 1..]);
    var v, k := values[..|values| - 6], values[|values| - 6..];
    assert values == v + k;
    ExpandFive(hrp);
    assert Expand(hrp) + values == (Expand(hrp) + v) + k;
    ChecksumUnique(Expand(hrp) + v, k);
    forall i | 0 <= i < pos
      ensures Printable(hrp[i]) && !IsUpper(hrp[i])
    {
      LowerPrintable(s[i]);
    }
    LowerOne();
    assert s == s[..pos] + [s[pos]] + s[pos + 1..];
  }

  lemma LowerPrintable(c: char)
    ensures Printable(c) <==> Printable(LowerCase(c))
    ensures !IsUpper(LowerCase(c))
  {
  }

  lemma LowerOne()
    ensures LowerCase('1') == '1'
  {
  }

  /** The shape of a text that reads, in lower case, as an encoding. */
  lemma EncodedShape(s: string, hrp: string, vs: seq<bv32>)
    requires FitPrefix(hrp) && AllFive(vs) && Lower(s) == hrp + "1" + Symbols(vs)
    ensures LastOne(s) == |hrp| && AllPrintable(s)
    ensures Lower(s[..|hrp|]) == hrp && InCharset(s[|hrp| + 1..]) && Values(s[|hrp| + 1..]) == vs
  {
    hide Symbol, Rev, ValueOf, LowerCase, Printable, IsUpper, Lower, Symbols, InCharset, Values;
    var pos := |hrp|;
    var low := Lower(s);
    LowerParts(s, pos);
    assert low[..pos] == hrp && low[pos] == '1' && low[pos + 1..] == Symbols(vs);
    LowerSymbols(s[pos + 1..], vs);
    LowerIsOne(s[pos]);
    NoOneIn(s[pos + 1..]);
    assert forall k :: pos < k < |s| ==> s[k] == s[pos + 1..][k - pos - 1];
    PrintableSymbols(vs);
    OnePrintable();
    LowerAllPrintable(s);
  }

  lemma LowerParts(s: string, pos: nat)
    requires pos < |s|
    ensures Lower(s)[..pos] == Lower(s[..pos]) && Lower(s)[pos] == LowerCase(s[pos])
    ensures Lower(s)[pos + 1..] == Lower(s[pos + 1..])
  {
  }

  lemma NoOneIn(t: string)
    requires InCharset(t)
    ensures '1' !in t
  {
    hide Rev;
    forall i | 0 <= i < |t|
      ensures t[i] != '1'
    {
      ValueSymbol(t[i]);
    }
  }

  lemma PrintableSymbols(vs: seq<bv32>)
    requires AllFive(vs)
    ensures AllPrintable(Symbols(vs))
  {
    hide Symbol, Printable;
    forall i | 0 <= i < |vs|
      ensures Printable(Symbol(vs[i]))
    {
      SymbolValue(vs[i]);
    }
  }

  lemma LowerAllPrintable(s: string)
    ensures AllPrintable(s) <==> AllPrintable(Lower(s))
  {
    hide Printable, LowerCase;
    forall i | 0 <= i < |s|
      ensures Printable(s[i]) <==> Printable(Lower(s)[i])
    {
      LowerPrintable(s[i]);
    }
  }

  lemma LowerIsOne(c: char)
    ensures LowerCase(c) == '1' <==> c == '1'
  {
  }

  lemma OnePrintable()
    ensures Printable('1')
  {
  }

  lemma EncodedDecodes(s: string, hrp: string, v: seq<bv32>)
    requires FitPrefix(hrp) && AllFive(v) && |s| <= 90 && !Mixed(s) && Lower(s) == Encoded(hrp, v)
    ensures Decoded(s) == Some((hrp, v))
  {
    hide Run, Checksum, Symbol, Rev, LowerCase, Expand, Mixed, Printable, IsUpper, Symbols, Lower, Values;
    var enc := Expand(hrp) + v;
    ExpandFive(hrp);
    ChecksumVerifies(enc);
    EncodedShape(s, hrp, v + Checksum(enc));
    assert enc + Checksum(enc) == Expand(hrp) + (v + Checksum(enc));
    assert (v + Checksum(enc))[..|v|] == v;
    assert |s| == |hrp| + 1 + |v| + 6;
  }

  /** A text decodes to a prefix and values exactly when it is their encoding, in
      either case but not both, and at most 90 characters long. */
  lemma DecodeIff(s: string, hrp: string, v: seq<bv32>)
    ensures Decoded(s) == Some((hrp, v))
       <==> FitPrefix(hrp) && AllFive(v) && |s| <= 90 && !Mixed(s) && Lower(s) == Encoded(hrp, v)
  {
    hide Decoded, Encoded, Mixed, FitPrefix, Lower;
    if Decoded(s) == Some((hrp, v)) { DecodedIsEncoded(s); }
    if FitPrefix(hrp) && AllFive(v) && |s| <= 90 && !Mixed(s) && Lower(s) == Encoded(hrp, v) {
      EncodedDecodes(s, hrp, v);
    }
  }

  /** So decoding undoes encoding for every lower-case prefix, one that contains
      '1' included, exactly when the prefix is fit and the text is short enough. */
  lemma RoundTripIff(hrp: string, v: seq<bv32>)
    requires AllFive(v) && NoUpper(hrp)
    ensures Decoded(Encoded(hrp, v)) == Some((hrp, v))
       <==> hrp != [] && AllPrintable(hrp) && |hrp| + 7 + |v| <= 90
  {
    hide Run, Checksum, Symbol, Expand, Decoded, LowerCase, IsUpper, IsLower, Printable;
    var s := Encoded(hrp, v);
    ExpandFive(hrp);
    ChecksumVerifies(Expand(hrp) + v);
    var vs := v + Checksum(Expand(hrp) + v);
    forall i | 0 <= i < |s|
      ensures LowerCase(s[i]) == s[i] && !IsUpper(s[i])
    {
      if i < |hrp| { LowerFixed(s[i]); }
      else if i == |hrp| { LowerFixed('1'); }
      else { SymbolValue(vs[i - |hrp| - 1]); }
    }
    DecodeIff(s, hrp, v);
  }

  lemma LowerFixed(c: char)
    ensures !IsUpper(c) ==> LowerCase(c) == c
    ensures !IsUpper('1')
  {
  }

  /** A valid list with any change confined to six consecutive values, hence with
      any single changed value, is no longer valid. */
  lemma BurstRejected(hrp: string, before: seq<bv32>, u: seq<bv32>, v: seq<bv32>, after: seq<bv32>)
    requires |u| == |v| <= 6 && AllFive(u) && AllFive(v) && u != v
    requires Run(1, Expand(hrp) + (before + u + after)) == 1
    ensures Run(1, Expand(hrp) + (before + v + after)) != 1
  {
    hide Run, Expand;
    var e := Expand(hrp);
    assert e + (before + u + after) == (e + before) + (u + after);
    assert e + (before + v + after) == (e + before) + (v + after);
    BurstDetected(1, e + before, u, v, after);
  }

  // ---------- the operations ----------

  method PolyMod(v: seq<bv32>) returns (c: bv32)
    ensures c == Run(1, v)
  {
    hide Step;
    c := 1;
    for i := 0 to |v|
      invariant c == Run(1, v[..i])
    {
      assert v[..i + 1] == v[..i] + [v[i]];
      RunSnoc(1, v[..i], v[i]);
      c := OneStep(c, v[i]);
    }
    assert v[..|v|] == v;
  }

  /** One value: shift, add, and add back what the top coefficient stands for. */
  method OneStep(c: bv32, v: bv32) returns (r: bv32)
    ensures r == Step(c, v)
  {
    hide Xor, And, Taps, Shifted;
    r := Xor(Shifted(c), v);
    TapsAre(c);
    FoldTaps(r, Tap(c, 0), Tap(c, 1), Tap(c, 2), Tap(c, 3), Tap(c, 4));
    XorZero(r);
    if And(c, 0x2000000) != 0 { r := Xor(r, 0x3b6a57b2); }
    XorZero(r);
    if And(c, 0x4000000) != 0 { r := Xor(r, 0x26508e6d); }
    XorZero(r);
    if And(c, 0x8000000) != 0 { r := Xor(r, 0x1ea119fa); }
    XorZero(r);
    if And(c, 0x10000000) != 0 { r := Xor(r, 0x3d4233dd); }
    XorZero(r);
    if And(c, 0x20000000) != 0 { r := Xor(r, 0x2a1462b3); }
  }

  lemma FoldTaps(b: bv32, t0: bv32, t1: bv32, t2: bv32, t3: bv32, t4: bv32)
    ensures Xor(b, Xor(Xor(Xor(Xor(Xor(0, t0), t1), t2), t3), t4))
         == Xor(Xor(Xor(Xor(Xor(b, t0), t1), t2), t3), t4)
  {
    hide Xor;
    XorZero(t0);
    XorAssoc(b, t0, t1);
    XorAssoc(b, Xor(t0, t1), t2);
    XorAssoc(b, Xor(Xor(t0, t1), t2), t3);
    XorAssoc(b, Xor(Xor(Xor(t0, t1), t2), t3), t4);
  }

  method ExpandHRP(hrp: string) returns (r: seq<bv32>)
    ensures r == Expand(hrp)
  {
    hide High, Low;
    var n := |hrp|;
    var ret := new bv32[n * 2 + 1](_ => 0);
    for i := 0 to n
      invariant forall j :: 0 <= j < i ==> ret[j] == High(hrp[j])
      invariant forall j :: n + 1 <= j < n + 1 + i ==> ret[j] == Low(hrp[j - n - 1])
    {
      ret[i] := High(hrp[i]);
      ret[i + n + 1] := Low(hrp[i]);
    }
    ret[n] := 0;
    r := ret[..];
    assert r == Expand(hrp);
  }

  method VerifyChecksum(hrp: string, values: seq<bv32>) returns (ok: bool)
    ensures ok == (Run(1, Expand(hrp) + values) == 1)
  {
    var enc := ExpandHRP(hrp);
    var c := PolyMod(enc + values);
    ok := c == 1;
  }

  method CreateChecksum(hrp: string, values: seq<bv32>) returns (r: seq<bv32>)
    ensures r == Checksum(Expand(hrp) + values)
  {
    hide Run, Xor, Group, Groups, Expand;
    var enc := ExpandHRP(hrp);
    enc := enc + values + ZeroValues(6);
    assert enc == (Expand(hrp) + values) + ZeroValues(6);
    var c := PolyMod(enc);
    var m := Xor(c, 1);
    var ret := new bv32[6](_ => 0);
    for i := 0 to 6
      invariant forall j :: 0 <= j < i ==> ret[j] == Group(m, j)
    {
      ret[i] := Group(m, i);
    }
    GroupsAre(m);
    r := ret[..];
  }

  /** The prefix must have no upper-case letter, as the node asserts. */
  method Encode(hrp: string, values: seq<bv32>) returns (r: string)
    requires NoUpper(hrp) && AllFive(values)
    ensures r == Encoded(hrp, values)
  {
    hide Checksum, Expand, Symbol;
    var checksum := CreateChecksum(hrp, values);
    var combined := values + checksum;
    r := hrp + "1";
    for i := 0 to |combined|
      invariant r == hrp + "1" + Symbols(combined)[..i]
    {
      r := r + [Symbol(combined[i])];
    }
  }

  method Decode(s: string) returns (r: Option<(string, seq<bv32>)>)
    ensures r == Decoded(s)
  {
    hide Run, Expand, Rev, ValueOf, Printable, IsLower, IsUpper, Lower, LowerCase;
    var ok := Legible(s);
    if !ok { return None; }
    var pos := LastOne(s);
    if |s| > 90 || pos <= 0 || pos + 7 > |s| { return None; }
    var values := [];
    for i := 0 to |s| - 1 - pos
      invariant InCharset(s[pos + 1..][..i]) && values == Values(s[pos + 1..][..i])
    {
      var c := s[i + pos + 1];
      assert s[pos + 1..][i] == c && s[pos + 1..][..i + 1] == s[pos + 1..][..i] + [c];
      var rev := Rev(c);
      if rev == -1 { return None; }
      RevRange(c);
      values := values + [ValueOf(c)];
    }
    assert s[pos + 1..][..|s| - 1 - pos] == s[pos + 1..];
    var hrp := ToLower(s[..pos]);
    var good := VerifyChecksum(hrp, values);
    if !good { return None; }
    return Some((hrp, values[..|values| - 6]));
  }

  lemma RevRange(c: char)
    ensures Rev(c) >= -1
  {
  }

  method ToLower(s: string) returns (r: string)
    ensures r == Lower(s)
  {
    hide LowerCase;
    r := "";
    for i := 0 to |s|
      invariant r == Lower(s)[..i]
    {
      r := r + [LowerCase(s[i])];
    }
  }

  /** Every character printable, and letters of one case only. */
  method Legible(s: string) returns (ok: bool)
    ensures ok <==> AllPrintable(s) && !Mixed(s)
  {
    var lower, upper := false, false;
    for i := 0 to |s|
      invariant forall j :: 0 <= j < i ==> Printable(s[j])
      invariant lower == exists j :: 0 <= j < i && IsLower(s[j])
      invariant upper == exists j :: 0 <= j < i && IsUpper(s[j])
    {
      var c := s[i];
      if IsLower(c) { lower := true; }
      else if IsUpper(c) { upper := true; }
      else if c as int < 33 || c as int > 126 { return false; }
    }
    return !(lower && upper);
  }
}
