/** Numbers as little-endian sequences of 32-bit limbs, and bitwise or on them. */
module Limbs {
  import opened Nonlinear

  const BASE: nat := 0x1_0000_0000

  type Limb = x: nat | x < BASE

  lemma Pow2Is32()
    ensures Pow2(32) == BASE
  {
    assert Pow2(8) == 256;
    Pow2Add(8, 8);
    Pow2Add(16, 16);
  }

  // ---------- values ----------

  function Val(s: seq<nat>): nat {
    if s == [] then 0 else s[0] + BASE * Val(s[1..])
  }

  function Pow(n: nat): (r: nat)
    ensures r >= 1
  {
    if n == 0 then 1 else BASE * Pow(n - 1)
  }

  lemma PowStep(n: nat)
    ensures Pow(n + 1) == BASE * Pow(n) && Pow(0) == 1
  {
  }

  lemma {:induction false} PowIsPow2(n: nat)
    ensures Pow(n) == Pow2(32 * n)
  {
    if n > 0 {
      PowIsPow2(n - 1);
      Pow2Add(32, 32 * (n - 1));
      Pow2Is32();
    }
  }

  lemma PowAdd(a: nat, b: nat)
    ensures Pow(a + b) == Pow(a) * Pow(b)
  {
    PowIsPow2(a);
    PowIsPow2(b);
    PowIsPow2(a + b);
    Pow2Add(32 * a, 32 * b);
  }

  lemma {:induction false} ValAppend(s: seq<nat>, x: nat)
    ensures Val(s + [x]) == Val(s) + Pow(|s|) * x
  {
    if s == [] {
      assert s + [x] == [x];
    } else {
      ValAppend(s[1..], x);
      assert (s + [x])[1..] == s[1..] + [x];
      MulDist(BASE, Val(s[1..]), Pow(|s| - 1) * x);
      MulAssoc(BASE, Pow(|s| - 1), x);
    }
  }

  lemma ValTake(s: seq<nat>, i: nat)
    requires i < |s|
    ensures Val(s[..i + 1]) == Val(s[..i]) + Pow(i) * s[i]
  {
    assert s[..i + 1] == s[..i] + [s[i]];
    ValAppend(s[..i], s[i]);
  }

  ghost predicate AreLimbs(s: seq<nat>) {
    forall i :: 0 <= i < |s| ==> s[i] < BASE
  }

  lemma {:induction false} ValBound(s: seq<nat>)
    requires AreLimbs(s)
    ensures Val(s) < Pow(|s|)
  {
    if s != [] {
      ValBound(s[1..]);
      MulMono(BASE, Val(s[1..]) + 1, Pow(|s| - 1));
      MulDist(BASE, Val(s[1..]), 1);
    }
  }

  lemma {:induction false} ValZeros(s: seq<nat>)
    requires forall i :: 0 <= i < |s| ==> s[i] == 0
    ensures Val(s) == 0
  {
    if s != [] {
      ValZeros(s[1..]);
    }
  }

  /** Changing one limb. */
  lemma {:induction false} ValUpdate(s: seq<nat>, i: nat, x: nat)
    requires i < |s|
    ensures Val(s[i := x]) == Val(s) + Pow(i) * (x - s[i])
  {
    if i == 0 {
      assert s[i := x][1..] == s[1..];
    } else {
      ValUpdate(s[1..], i - 1, x);
      assert s[i := x][1..] == s[1..][i - 1 := x];
      MulDist(BASE, Val(s[1..]), Pow(i - 1) * (x - s[i]));
      MulAssoc(BASE, Pow(i - 1), x - s[i]);
    }
  }

  // ---------- bitwise or ----------

  /** Bitwise or, one bit at a time. */
  function BitOr(x: nat, y: nat): nat
    decreases x + y
  {
    if x == 0 && y == 0 then 0
    else (if x % 2 == 1 || y % 2 == 1 then 1 else 0) + 2 * BitOr(x / 2, y / 2)
  }

  /** Numbers without a bit in common: or is plus. */
  lemma {:induction false} OrIsPlus(x: nat, y: nat, s: nat)
    requires x < Pow2(s)
    ensures BitOr(x, y * Pow2(s)) == x + y * Pow2(s)
    decreases s
  {
    if s == 0 {
      assert y * Pow2(0) == y;
      OrZero(y);
    } else {
      var h := y * Pow2(s - 1);
      assert y * Pow2(s) == 2 * h by {
        MulAssoc(y, 2, Pow2(s - 1));
      }
      OrIsPlus(x / 2, y, s - 1);
      if x == 0 && h == 0 {
      } else {
        assert (2 * h) % 2 == 0 && (2 * h) / 2 == h;
      }
    }
  }

  lemma {:induction false} OrZero(y: nat)
    ensures BitOr(0, y) == y
  {
    if y > 0 {
      OrZero(y / 2);
    }
  }

  lemma {:induction false} OrComm(x: nat, y: nat)
    ensures BitOr(x, y) == BitOr(y, x)
    decreases x + y
  {
    if x != 0 || y != 0 {
      OrComm(x / 2, y / 2);
    }
  }

  // ---------- order and size ----------

  lemma {:induction false} ValLess(x: seq<nat>, y: seq<nat>, i: nat)
    requires |x| == |y| && i < |x| && AreLimbs(x) && AreLimbs(y)
    requires x[i] < y[i] && x[i + 1..] == y[i + 1..]
    ensures Val(x) < Val(y)
  {
    if i == 0 {
      assert x[1..] == y[1..];
    } else {
      assert x[1..][i..] == x[i + 1..] && y[1..][i..] == y[i + 1..];
      ValLess(x[1..], y[1..], i - 1);
      MulMono(BASE, Val(x[1..]) + 1, Val(y[1..]));
      MulDist(BASE, Val(x[1..]), 1);
    }
  }

  lemma {:induction false} ValSplit(s: seq<nat>, i: nat)
    requires i <= |s|
    ensures Val(s) == Val(s[..i]) + Pow(i) * Val(s[i..])
  {
    if i == 0 {
      assert s[..0] == [] && s[0..] == s;
    } else {
      ValSplit(s[1..], i - 1);
      assert s[1..][..i - 1] == s[..i][1..] && s[1..][i - 1..] == s[i..];
      MulDist(BASE, Val(s[..i][1..]), Pow(i - 1) * Val(s[i..]));
      MulAssoc(BASE, Pow(i - 1), Val(s[i..]));
    }
  }

  /** Limbs from `pos + 1` on are zero: the value is that of the rest. */
  lemma ValTop(s: seq<nat>, pos: nat)
    requires pos < |s| && forall j :: pos < j < |s| ==> s[j] == 0
    ensures Val(s) == Val(s[..pos]) + Pow(pos) * s[pos]
  {
    ValSplit(s, pos);
    var top := s[pos..];
    ValZeros(top[1..]);
    assert Val(top) == s[pos];
  }

  /** A top limb with highest bit n puts the value between two powers. */
  lemma TopLimb(s: seq<nat>, pos: nat, n: nat)
    requires AreLimbs(s) && pos < |s| && forall j :: pos < j < |s| ==> s[j] == 0
    requires Pow2(n) <= s[pos] < Pow2(n + 1)
    ensures Pow2(32 * pos + n) <= Val(s) < Pow2(32 * pos + n + 1)
  {
    hide Val, Pow, Pow2;
    ValTop(s, pos);
    ValBound(s[..pos]);
    PowIsPow2(pos);
    Pow2Add(32 * pos, n);
    Pow2Add(32 * pos, n + 1);
    MulMono(Pow(pos), Pow2(n), s[pos]);
    MulMono(Pow(pos), s[pos] + 1, Pow2(n + 1));
    MulDist(Pow(pos), s[pos], 1);
  }

  // ---------- shifting one limb ----------

  /** x shifted left within a 64-bit window: the part that stays in the limb and
      the part that moves to the next. */
  lemma ShiftParts(x: nat, s: nat)
    requires x < BASE && s < 32
    ensures var y := x * Pow2(s);
            && x / Pow2(32 - s) == y / BASE < Pow2(s)
            && y % BASE == (x % Pow2(32 - s)) * Pow2(s)
            && y == y % BASE + BASE * (y / BASE)
  {
    hide Pow2;
    var d, m := Pow2(32 - s), Pow2(s);
    Pow2Add(32 - s, s);
    Pow2Is32();
    assert d * m == BASE;
    var q, r := x / d, x % d;
    DivModFacts(x, d);
    var y := x * m;
    assert y == BASE * q + r * m by {
      assert x == d * q + r;
      MulDist(m, d * q, r);
      MulAssoc(m, d, q);
    }
    assert r * m < BASE by {
      MulMono(m, r + 1, d);
      MulDist(m, r, 1);
    }
    DivUnique(y, BASE, q, r * m);
    if q >= m {
      MulMono(d, m, q);
    }
  }

  /** Or-ing a shifted limb onto bits below its shift. */
  lemma OrShifted(low: nat, x: nat, s: nat)
    requires low < Pow2(s) && x < BASE && s < 32
    ensures BitOr(low, x * Pow2(s) % BASE) == low + x * Pow2(s) % BASE < BASE
  {
    hide Pow2, BitOr;
    ShiftParts(x, s);
    var r, m := x % Pow2(32 - s), Pow2(s);
    OrIsPlus(low, r, s);
    DivModFacts(x, Pow2(32 - s));
    Pow2Add(32 - s, s);
    Pow2Is32();
    MulMono(m, r + 1, Pow2(32 - s));
    MulDist(m, r, 1);
  }
}
