/** 256-bit unsigned integers on eight 32-bit limbs, worked on in place. */
module Arith256 {
  import opened Limbs
  import opened Nonlinear

  const WIDTH: nat := 8

  /** 2^256. */
  ghost function Modulus(): nat { Pow(WIDTH) }

  /** What is left of a number in 256 bits. */
  ghost function Wrap(x: int): nat { x % Modulus() }

  lemma WrapIs(x: int, q: int, r: nat)
    requires x == Modulus() * q + r && r < Modulus()
    ensures Wrap(x) == r
  {
    DivUnique(x, Modulus(), q, r);
  }

  lemma CarryStep(p: nat, n: nat)
    ensures p * (n % BASE) + (BASE * p) * (n / BASE) == p * n
  {
    MulAssoc(p, BASE, n / BASE);
    MulDist(p, n % BASE, BASE * (n / BASE));
  }

  lemma AddLimb(vp: int, v: int, p: nat, carry: nat, x: nat, y: nat)
    requires vp + p * carry == v
    ensures var n := carry + x + y;
            (vp + p * (n % BASE)) + (BASE * p) * (n / BASE) == v + p * x + p * y
  {
    var n := carry + x + y;
    CarryStep(p, n);
    MulDist(p, carry, x + y);
    MulDist(p, x, y);
  }

  class BaseUint {
    const pn: array<Limb>

    ghost predicate Valid() { pn.Length == WIDTH }

    ghost function Value(): (v: nat)
      reads pn
    {
      Val(pn[..])
    }

    lemma Bounded()
      requires Valid()
      ensures Value() < Modulus()
    {
      ValBound(pn[..]);
    }

    constructor Zero()
      ensures Valid() && Value() == 0 && fresh(pn)
    {
      pn := new Limb[WIDTH](_ => 0);
      new;
      ValZeros(pn[..]);
    }

    constructor Copy(b: BaseUint)
      requires b.Valid()
      ensures Valid() && Value() == b.Value() && fresh(pn)
    {
      var from := b.pn;
      pn := new Limb[WIDTH](i requires 0 <= i < WIDTH && from.Length == WIDTH reads from => from[i]);
      new;
      assert pn[..] == b.pn[..];
    }

    /** *this = b for a 64-bit b. */
    method Assign(b: nat)
      requires Valid() && b < BASE * BASE
      modifies pn
      ensures Value() == b
    {
      pn[0] := b % BASE;
      pn[1] := b / BASE;
      for i := 2 to WIDTH
        invariant pn[0] == b % BASE && pn[1] == b / BASE
        invariant forall j :: 2 <= j < i ==> pn[j] == 0
      {
        pn[i] := 0;
      }
      ValZeros(pn[..][2..]);
      assert Val(pn[..]) == pn[0] + BASE * Val(pn[..][1..]);
      assert pn[..][1..][1..] == pn[..][2..];
    }

    method GetLow64() returns (r: nat)
      requires Valid()
      ensures r == Value() % (BASE * BASE)
    {
      hide Pow2, BitOr;
      Pow2Is32();
      OrIsPlus(pn[0], pn[1], 32);
      r := BitOr(pn[0], pn[1] * BASE);
      ghost var rest := Val(pn[..][1..][1..]);
      assert Val(pn[..]) == pn[0] + BASE * Val(pn[..][1..]);
      DivUnique(Val(pn[..]), BASE * BASE, rest, r);
    }

    method AddAssign(b: BaseUint)
      requires Valid() && b.Valid()
      modifies pn
      ensures Value() == Wrap(old(Value()) + old(b.Value()))
    {
      hide Val, Pow, Wrap;
      ghost var x, y := pn[..], b.pn[..];
      ValZeros(x[..0]);
      var carry := 0;
      for i := 0 to WIDTH
        invariant 0 <= carry <= 1
        invariant forall j :: i <= j < WIDTH ==> pn[j] == x[j] && b.pn[j] == y[j]
        invariant Val(pn[..i]) + Pow(i) * carry == Val(x[..i]) + Val(y[..i])
      {
        var n := carry + pn[i] + b.pn[i];
        ghost var before := pn[..];
        pn[i] := n % BASE;
        assert pn[..i] == before[..i];
        ValTake(pn[..], i);
        ValTake(x, i);
        ValTake(y, i);
        PowStep(i);
        AddLimb(Val(before[..i]), Val(x[..i]) + Val(y[..i]), Pow(i), carry, x[i], y[i]);
        carry := n / BASE;
      }
      assert pn[..WIDTH] == pn[..] && x[..WIDTH] == x && y[..WIDTH] == y;
      Bounded();
      WrapIs(Val(x) + Val(y), carry, Value());
    }

    /** ++*this: add one to each limb until one does not wrap to zero. */
    method Increment()
      requires Valid()
      modifies pn
      ensures Value() == Wrap(old(Value()) + 1)
    {
      hide Val, Pow, Wrap;
      ghost var x := pn[..];
      var i := 0;
      PowStep(0);
      while i < WIDTH
        invariant 0 <= i <= WIDTH
        invariant Val(pn[..]) + Pow(i) == Val(x) + 1
        invariant forall j :: i <= j < WIDTH ==> pn[j] == x[j]
        decreases WIDTH - i
      {
        ghost var before := pn[..];
        var n := (pn[i] + 1) % BASE;
        pn[i] := n;
        assert pn[..] == before[i := n];
        ValUpdate(before, i, n);
        if n != 0 {
          assert n - before[i] == 1;
          Bounded();
          WrapIs(Val(x) + 1, 0, Value());
          return;
        }
        assert n - before[i] == 1 - BASE;
        MulDist(Pow(i), 1 - BASE, BASE);
        PowStep(i);
        i := i + 1;
      }
      Bounded();
      WrapIs(Val(x) + 1, 1, Value());
    }

    /** --*this: take one from each limb until one does not wrap to all ones. */
    method Decrement()
      requires Valid()
      modifies pn
      ensures Value() == Wrap(old(Value()) - 1)
    {
      hide Val, Pow, Wrap;
      ghost var x := pn[..];
      var i := 0;
      PowStep(0);
      while i < WIDTH
        invariant 0 <= i <= WIDTH
        invariant Val(pn[..]) - Pow(i) == Val(x) - 1
        invariant forall j :: i <= j < WIDTH ==> pn[j] == x[j]
        decreases WIDTH - i
      {
        ghost var before := pn[..];
        var n := if pn[i] == 0 then BASE - 1 else pn[i] - 1;
        pn[i] := n;
        assert pn[..] == before[i := n];
        ValUpdate(before, i, n);
        if n != BASE - 1 {
          assert n - before[i] == -1;
          Bounded();
          WrapIs(Val(x) - 1, 0, Value());
          return;
        }
        assert n - before[i] == BASE - 1;
        MulDist(Pow(i), BASE - 1, 1);
        PowStep(i);
        i := i + 1;
      }
      Bounded();
      WrapIs(Val(x) - 1, -1, Value());
    }

    /** ~b. */
    static method Complement(b: BaseUint) returns (ret: BaseUint)
      requires b.Valid()
      ensures ret.Valid() && fresh(ret) && fresh(ret.pn)
      ensures ret.Value() == Modulus() - 1 - b.Value()
    {
      hide Val, Pow, Wrap;
      ret := new BaseUint.Zero();
      PowStep(0);
      ValZeros(b.pn[..0]);
      ValZeros(ret.pn[..0]);
      for i := 0 to WIDTH
        invariant Val(ret.pn[..i]) + Val(b.pn[..i]) == Pow(i) - 1
      {
        ghost var before := ret.pn[..];
        ret.pn[i] := BASE - 1 - b.pn[i];
        assert ret.pn[..i] == before[..i];
        ValTake(ret.pn[..], i);
        ValTake(b.pn[..], i);
        PowStep(i);
        MulDist(Pow(i), BASE - 1 - b.pn[i], b.pn[i]);
        MulDist(Pow(i), BASE - 1, 1);
      }
      assert ret.pn[..WIDTH] == ret.pn[..] && b.pn[..WIDTH] == b.pn[..];
    }

    /** The two's complement of b. */
    static method Negate(b: BaseUint) returns (ret: BaseUint)
      requires b.Valid()
      ensures ret.Valid() && fresh(ret) && fresh(ret.pn)
      ensures ret.Value() == Wrap(Modulus() - b.Value())
    {
      ret := Complement(b);
      ret.Increment();
    }

    method SubAssign(b: BaseUint)
      requires Valid() && b.Valid()
      modifies pn
      ensures Value() == Wrap(old(Value()) - old(b.Value()))
    {
      hide Val, Pow, Wrap;
      b.Bounded();
      Bounded();
      ghost var x, y := Value(), b.Value();
      var nb := Negate(b);
      AddAssign(nb);
      SubByComplement(x, y);
    }

    method CompareTo(b: BaseUint) returns (r: int)
      requires Valid() && b.Valid()
      ensures r == if Value() < b.Value() then -1 else if Value() > b.Value() then 1 else 0
    {
      hide Val, Pow, Wrap;
      var i := WIDTH - 1;
      while i >= 0
        invariant -1 <= i < WIDTH && pn[i + 1..] == b.pn[i + 1..]
      {
        if pn[i] < b.pn[i] {
          ValLess(pn[..], b.pn[..], i);
          return -1;
        }
        if pn[i] > b.pn[i] {
          ValLess(b.pn[..], pn[..], i);
          return 1;
        }
        i := i - 1;
      }
      assert pn[..] == b.pn[..];
      return 0;
    }

    method ShiftLeftAssign(shift: nat)
      requires Valid()
      modifies pn
      ensures Value() == Wrap(old(Value()) * Pow2(shift))
    {
      hide Val, Pow, Pow2, BitOr, Wrap;
      ghost var x := pn[..];
      var a := pn[..];
      Clear();
      var k, s := shift / 32, shift % 32;
      ghost var lost := 0;
      ValZeros(pn[..]);
      ValZeros(x[..0]);
      for i := 0 to WIDTH
        invariant forall t :: i + k < t < WIDTH ==> pn[t] == 0
        invariant i + k < WIDTH ==> pn[i + k] < Pow2(s)
        invariant 0 <= lost && Val(pn[..]) + Modulus() * lost == Val(x[..i]) * Pow2(shift)
      {
        ShiftLimbIn(a[i], i, k, s);
        ValTake(x, i);
        ShiftedLimb(i, k, s, x[i]);
        MulDist(Pow2(shift), Val(x[..i]), Pow(i) * x[i]);
        ghost var more := LostPart(a[i], i, k, s);
        MulDist(Modulus(), lost, more);
        lost := lost + more;
      }
      assert x[..WIDTH] == x;
      Bounded();
      WrapIs(Val(x) * Pow2(shift), lost, Value());
    }

    method Clear()
      requires Valid()
      modifies pn
      ensures forall i :: 0 <= i < WIDTH ==> pn[i] == 0
    {
      for i := 0 to WIDTH
        invariant forall j :: 0 <= j < i ==> pn[j] == 0
      {
        pn[i] := 0;
      }
    }

    /** Or limb x, shifted by s bits, into limbs i + k and i + k + 1. */
    method ShiftLimbIn(x: Limb, i: nat, k: nat, s: nat)
      requires Valid() && i < WIDTH && s < 32
      requires forall t :: i + k < t < WIDTH ==> pn[t] == 0
      requires i + k < WIDTH ==> pn[i + k] < Pow2(s)
      modifies pn
      ensures forall t :: i + k + 1 < t < WIDTH ==> pn[t] == 0
      ensures i + k + 1 < WIDTH ==> pn[i + k + 1] < Pow2(s)
      ensures Val(pn[..]) + Modulus() * LostPart(x, i, k, s) == old(Val(pn[..])) + Pow(i + k) * (x * Pow2(s))
    {
      hide Val, Pow, Pow2, BitOr, Wrap;
      ghost var p0: seq<nat> := pn[..];
      ghost var y := x * Pow2(s);
      ShiftParts(x, s);
      if i + k + 1 < WIDTH && s != 0 {
        OrZero(x / Pow2(32 - s));
        pn[i + k + 1] := BitOr(pn[i + k + 1], x / Pow2(32 - s));
        ValUpdate(p0, i + k + 1, y / BASE);
        assert pn[..] == p0[i + k + 1 := y / BASE];
      }
      ghost var p1: seq<nat> := pn[..];
      if i + k < WIDTH {
        OrShifted(pn[i + k], x, s);
        pn[i + k] := BitOr(pn[i + k], x * Pow2(s) % BASE);
        ValUpdate(p1, i + k, p1[i + k] + y % BASE);
        assert pn[..] == p1[i + k := p1[i + k] + y % BASE];
      }
      LostAccounts(x, i, k, s);
    }

    method ShiftRightAssign(shift: nat)
      requires Valid()
      modifies pn
      ensures Value() == old(Value()) / Pow2(shift)
    {
      hide Val, Pow, Pow2, BitOr;
      ghost var x := pn[..];
      var a := pn[..];
      Clear();
      var k, s := shift / 32, shift % 32;
      ValZeros(pn[..]);
      ValZeros(x[..0]);
      DivUnique(0, Pow2(shift), 0, 0);
      for i := 0 to WIDTH
        invariant forall t :: 0 <= t < WIDTH && i - k <= t ==> pn[t] == 0
        invariant i > k ==> pn[i - k - 1] < Pow2(32 - s)
        invariant Val(pn[..]) == Val(x[..i]) / Pow2(shift)
      {
        ShiftLimbDown(a[i], i, k, s);
        ValTake(x, i);
        ValBound(x[..i]);
        ShiftedDown(Val(x[..i]), i, k, s, x[i]);
      }
      assert x[..WIDTH] == x;
    }

    /** Or limb x, shifted down by s bits, into limbs i - k and i - k - 1. */
    method ShiftLimbDown(x: Limb, i: nat, k: nat, s: nat)
      requires Valid() && i < WIDTH && s < 32
      requires forall t :: 0 <= t < WIDTH && i - k <= t ==> pn[t] == 0
      requires i > k ==> pn[i - k - 1] < Pow2(32 - s)
      modifies pn
      ensures forall t :: 0 <= t < WIDTH && i - k < t ==> pn[t] == 0
      ensures i >= k ==> pn[i - k] < Pow2(32 - s)
      ensures Val(pn[..]) == old(Val(pn[..])) + DownPart(x, i, k, s)
    {
      hide Val, Pow, Pow2, BitOr;
      ghost var p0: seq<nat> := pn[..];
      DownLimb(x, s);
      if i - k - 1 >= 0 && s != 0 {
        OrShifted(pn[i - k - 1], x, 32 - s);
        pn[i - k - 1] := BitOr(pn[i - k - 1], x * Pow2(32 - s) % BASE);
        ValUpdate(p0, i - k - 1, p0[i - k - 1] + x * Pow2(32 - s) % BASE);
        assert pn[..] == p0[i - k - 1 := p0[i - k - 1] + x * Pow2(32 - s) % BASE];
      }
      ghost var p1: seq<nat> := pn[..];
      if i - k >= 0 {
        OrZero(x / Pow2(s));
        pn[i - k] := BitOr(pn[i - k], x / Pow2(s));
        ValUpdate(p1, i - k, x / Pow2(s));
        assert pn[..] == p1[i - k := x / Pow2(s)];
        PowStep(0);
        if i > k {
          PowStep(i - k - 1);
          CarryStep(Pow(i - k - 1), x * Pow2(32 - s));
        }
      }
    }

    /** The position of the highest set bit plus one. */
    method Bits() returns (r: nat)
      requires Valid()
      ensures Value() == 0 ==> r == 0
      ensures Value() != 0 ==> 1 <= r <= 256 && Pow2(r - 1) <= Value() < Pow2(r)
    {
      hide Val, Pow, Wrap;
      var pos := WIDTH - 1;
      while pos >= 0
        invariant -1 <= pos < WIDTH && forall j :: pos < j < WIDTH ==> pn[j] == 0
      {
        if pn[pos] != 0 {
          var nbits := HighBit(pn[pos]);
          TopLimb(pn[..], pos, nbits);
          assert Pow2(32 * pos + nbits) >= 1;
          return 32 * pos + nbits + 1;
        }
        pos := pos - 1;
      }
      ValZeros(pn[..]);
      return 0;
    }

    /** *this *= b, limb by limb. */
    method MultiplyAssign(b: BaseUint)
      requires Valid() && b.Valid()
      modifies pn
      ensures Value() == Wrap(old(Value()) * old(b.Value()))
    {
      hide Val, Pow, Wrap;
      ghost var x, y := pn[..], b.Value();
      var a := new BaseUint.Zero();
      ghost var lost: int := 0;
      ValZeros(x[..0]);
      for j := 0 to WIDTH
        invariant a.Value() + Modulus() * lost == Val(x[..j]) * y
        invariant pn[..] == x && b.Value() == y
      {
        ghost var more := a.AddRow(pn[j], b, j);
        ValTake(x, j);
        MulDist(y, Val(x[..j]), Pow(j) * x[j]);
        MulDist(Modulus(), lost, more);
        lost := lost + more;
      }
      assert x[..WIDTH] == x;
      a.Bounded();
      WrapIs(Val(x) * y, lost, a.Value());
      CopyFrom(a);
    }

    /** Add x * b, moved up j limbs, to this accumulator. No 64-bit step overflows. */
    method AddRow(x: Limb, b: BaseUint, j: nat) returns (ghost lost: int)
      requires Valid() && b.Valid() && pn != b.pn && j < WIDTH
      modifies pn
      ensures Value() + Modulus() * lost == old(Value()) + (Pow(j) * x) * b.Value()
    {
      hide Val, Pow;
      var carry: nat := 0;
      ghost var y := b.pn[..];
      ghost var a0 := Value();
      ValZeros(y[..0]);
      for i := 0 to WIDTH - j
        invariant carry < BASE
        invariant Val(pn[..]) + Pow(i + j) * carry == a0 + (Pow(j) * x) * Val(y[..i])
      {
        ghost var p0: seq<nat> := pn[..];
        WordFits(carry, pn[i + j], x, b.pn[i]);
        var n := carry + pn[i + j] + x * b.pn[i];
        assert n < BASE * BASE;
        pn[i + j] := n % BASE;
        assert pn[..] == p0[i + j := n % BASE];
        ValUpdate(p0, i + j, n % BASE);
        RowStep(i, j, carry, p0[i + j], x, y[i]);
        ValTake(y, i);
        MulDist(Pow(j) * x, Val(y[..i]), Pow(i) * y[i]);
        carry := n / BASE;
      }
      ValSplit(y, WIDTH - j);
      lost := carry + x * Val(y[WIDTH - j..]);
      RowLost(j, x, carry, Val(y[..WIDTH - j]), Val(y[WIDTH - j..]));
    }

    method CopyFrom(b: BaseUint)
      requires Valid() && b.Valid() && pn != b.pn
      modifies pn
      ensures Value() == b.Value()
    {
      for i := 0 to WIDTH
        invariant pn[..i] == b.pn[..i]
      {
        pn[i] := b.pn[i];
      }
      assert pn[..] == pn[..WIDTH] && b.pn[..] == b.pn[..WIDTH];
    }

    /** Bits 0 to n - 1 are clear. */
    ghost predicate LowClear(n: nat)
      requires Valid()
      reads pn
    {
      forall j :: 0 <= j < WIDTH ==> pn[j] % Pow2(Within(n, j)) == 0
    }

    lemma ZeroClear(n: nat)
      requires Valid() && forall j :: 0 <= j < WIDTH ==> pn[j] == 0
      ensures LowClear(n)
    {
      hide Pow2;
      forall j | 0 <= j < WIDTH
        ensures pn[j] % Pow2(Within(n, j)) == 0
      {
        DivUnique(0, Pow2(Within(n, j)), 0, 0);
      }
    }

    /** pn[shift / 32] |= 1 << (shift & 31), on a clear bit. */
    method SetBit(shift: nat)
      requires Valid() && shift < 256 && LowClear(shift + 1)
      modifies pn
      ensures Value() == old(Value()) + Pow2(shift)
      ensures LowClear(shift)
    {
      hide Val, Pow, Pow2, BitOr;
      var j, t := shift / 32, shift % 32;
      ghost var p0: seq<nat> := pn[..];
      assert pn[j] % Pow2(Within(shift + 1, j)) == 0;
      BitJoins(pn[j], t);
      pn[j] := BitOr(pn[j], Pow2(t));
      assert pn[..] == p0[j := p0[j] + Pow2(t)];
      ValUpdate(p0, j, p0[j] + Pow2(t));
      PowIsPow2(j);
      Pow2Add(32 * j, t);
      forall i | 0 <= i < WIDTH
        ensures pn[i] % Pow2(Within(shift, i)) == 0
      {
        if i != j {
          assert Within(shift, i) == Within(shift + 1, i);
          assert p0[i] % Pow2(Within(shift + 1, i)) == 0;
        }
      }
    }

    /** *this /= b by shift and subtract. A zero divisor is an error, reported
        after *this has been set to zero. */
    method DivideAssign(b: BaseUint) returns (ok: bool)
      requires Valid() && b.Valid()
      modifies pn
      ensures ok == (old(b.Value()) != 0)
      ensures Value() == if ok then old(Value()) / old(b.Value()) else 0
    {
      hide Val, Pow, Pow2, Wrap, LowClear;
      ghost var x, d := Value(), b.Value();
      var div := new BaseUint.Copy(b);
      var num := new BaseUint.Copy(this);
      Clear();
      ValZeros(pn[..]);
      var numBits := num.Bits();
      var divBits := div.Bits();
      if divBits == 0 { return false; }
      if divBits > numBits {
        if x != 0 { Pow2Mono(numBits, divBits - 1); }
        DivUnique(x, d, 0, x);
        return true;
      }
      var shift: int := numBits - divBits;
      Aligned(x, d, numBits, divBits);
      div.ShiftLeftAssign(shift);
      ZeroClear(shift + 1);
      while shift >= 0
        invariant -1 <= shift < 256
        invariant Dividing(x, d, Value(), num.Value(), shift + 1)
        invariant shift >= 0 ==> div.Value() == d * Pow2(shift)
        invariant LowClear(shift + 1)
      {
        DivideStep(num, div, shift, x, d);
        shift := shift - 1;
      }
      DividedOut(x, d, Value(), num.Value());
      return true;
    }

    /** One quotient bit: subtract if it fits, then shift the divisor back. */
    method DivideStep(num: BaseUint, div: BaseUint, shift: nat, ghost x: nat, ghost d: nat)
      requires Valid() && num.Valid() && div.Valid() && shift < 256
      requires pn != num.pn && num.pn != div.pn && div.pn != pn
      requires Dividing(x, d, Value(), num.Value(), shift + 1)
      requires div.Value() == d * Pow2(shift) && LowClear(shift + 1)
      modifies pn, num.pn, div.pn
      ensures Dividing(x, d, Value(), num.Value(), shift) && LowClear(shift)
      ensures shift > 0 ==> div.Value() == d * Pow2(shift - 1)
    {
      hide Val, Pow, Pow2, Wrap;
      ghost var q := Value();
      Pow2Double(shift, d);
      var c := num.CompareTo(div);
      if c >= 0 {
        num.Bounded();
        WrapIs(num.Value() - div.Value(), 0, num.Value() - div.Value());
        num.SubAssign(div);
        SetBit(shift);
        MulDist(d, q, Pow2(shift));
      } else {
        LowClearLess(shift);
      }
      div.ShiftRightAssign(1);
      if shift > 0 { Halved(shift - 1, d); }
    }

    lemma LowClearLess(n: nat)
      requires Valid() && LowClear(n + 1)
      ensures LowClear(n)
    {
      hide Pow2;
      forall j | 0 <= j < WIDTH
        ensures pn[j] % Pow2(Within(n, j)) == 0
      {
        assert pn[j] % Pow2(Within(n + 1, j)) == 0;
        if Within(n, j) != Within(n + 1, j) {
          var m := Pow2(Within(n, j));
          Pow2Double(Within(n, j), 1);
          DivModFacts(pn[j], 2 * m);
          MulAssoc(m, 2, pn[j] / (2 * m));
          DivUnique(pn[j], m, 2 * (pn[j] / (2 * m)), 0);
        }
      }
    }
  }

  /** Long division of x by d, with quotient q so far, down to bit n. */
  ghost predicate Dividing(x: nat, d: nat, q: nat, num: nat, n: nat) {
    q * d + num == x && num < d * Pow2(n)
  }

  lemma DividedOut(x: nat, d: nat, q: nat, r: nat)
    requires Dividing(x, d, q, r, 0)
    ensures d > 0 && x / d == q
  {
    DivUnique(x, d, q, r);
  }

  lemma Halved(n: nat, d: nat)
    ensures d * Pow2(n + 1) / Pow2(1) == d * Pow2(n)
  {
    Pow2Double(n, d);
    assert Pow2(1) == 2;
  }

  lemma WordFits(carry: nat, a: nat, x: nat, y: nat)
    requires carry < BASE && a < BASE && x < BASE && y < BASE
    ensures 0 <= x * y && carry + a + x * y < BASE * BASE
    ensures (carry + a + x * y) / BASE < BASE
  {
    MulMono(x, y, BASE - 1);
    MulMono(BASE - 1, x, BASE - 1);
  }

  lemma RowStep(i: nat, j: nat, carry: nat, a: nat, x: nat, y: nat)
    ensures var n := carry + a + x * y;
            Pow(i + j) * (n % BASE - a) + Pow(i + 1 + j) * (n / BASE)
            == Pow(i + j) * carry + (Pow(j) * x) * (Pow(i) * y)
  {
    hide Pow;
    var p, n := Pow(i + j), carry + a + x * y;
    PowStep(i + j);
    CarryStep(p, n);
    MulDist(p, n % BASE - a, a);
    MulDist(p, carry + a, x * y);
    MulDist(p, carry, a);
    assert p * (x * y) == (Pow(j) * x) * (Pow(i) * y) by {
      PowAdd(i, j);
      Regroup(Pow(i), Pow(j), x, y);
    }
  }

  lemma Regroup(a: int, b: int, c: int, d: int)
    ensures (a * b) * (c * d) == (b * c) * (a * d)
  {
    MulAssoc(a, b, c * d);
    MulAssoc(b, c, d);
    MulAssoc(b * c, a, d);
    MulAssoc(a, b * c, d);
  }

  lemma RowLost(j: nat, x: nat, carry: nat, low: nat, high: nat)
    requires j < WIDTH
    ensures Modulus() * (carry + x * high) + (Pow(j) * x) * low
         == Pow(WIDTH - j + j) * carry + (Pow(j) * x) * (low + Pow(WIDTH - j) * high)
  {
    hide Pow;
    PowAdd(WIDTH - j, j);
    MulDist(Modulus(), carry, x * high);
    MulDist(Pow(j) * x, low, Pow(WIDTH - j) * high);
    Regroup(Pow(WIDTH - j), Pow(j), x, high);
  }

  /** How many of the low n bits fall in limb j. */
  function Within(n: nat, j: nat): (r: nat)
    ensures r <= 32
  {
    if n <= 32 * j then 0 else if n >= 32 * (j + 1) then 32 else n - 32 * j
  }

  lemma BitJoins(x: nat, t: nat)
    requires t < 32 && x < BASE && x % Pow2(t + 1) == 0
    ensures BitOr(x, Pow2(t)) == x + Pow2(t) < BASE && (x + Pow2(t)) % Pow2(t) == 0
  {
    hide Pow2, BitOr;
    var m, h := Pow2(t), x / Pow2(t + 1);
    Pow2Double(t, 1);
    DivModFacts(x, 2 * m);
    OrIsPlus(m, h, t + 1);
    OrComm(x, m);
    MulAssoc(m, 2, h);
    MulDist(m, 2 * h, 1);
    DivUnique(x + m, m, 2 * h + 1, 0);
    Pow2Add(t + 1, 31 - t);
    Pow2Is32();
    if h >= Pow2(31 - t) {
      MulMono(2 * m, Pow2(31 - t), h);
    } else {
      MulMono(2 * m, h + 1, Pow2(31 - t));
      MulDist(2 * m, h, 1);
    }
  }

  lemma Pow2Double(n: nat, d: nat)
    ensures Pow2(n + 1) == 2 * Pow2(n)
    ensures d * Pow2(n + 1) == 2 * (d * Pow2(n))
  {
    MulAssoc(2, d, Pow2(n));
  }

  lemma Aligned(x: nat, d: nat, numBits: nat, divBits: nat)
    requires 1 <= divBits <= numBits <= 256
    requires Pow2(numBits - 1) <= x < Pow2(numBits) && Pow2(divBits - 1) <= d < Pow2(divBits)
    ensures var s := numBits - divBits;
            Wrap(d * Pow2(s)) == d * Pow2(s) && x < d * Pow2(s + 1)
  {
    hide Pow, Pow2, Wrap;
    var s := numBits - divBits;
    Pow2Add(divBits, s);
    Pow2Add(divBits - 1, s + 1);
    MulMono(Pow2(s), d + 1, Pow2(divBits));
    MulDist(Pow2(s), d, 1);
    MulMono(Pow2(s + 1), Pow2(divBits - 1), d);
    Pow2Mono(numBits, 256);
    PowIsPow2(WIDTH);
    WrapIs(d * Pow2(s), 0, d * Pow2(s));
  }

  /** The part of a shifted limb that falls off the top, in units of 2^256. */
  ghost function LostPart(x: nat, i: nat, k: nat, s: nat): nat {
    if i + k + 1 < WIDTH then 0
    else if i + k + 1 == WIDTH then x * Pow2(s) / BASE
    else Pow(i + k - WIDTH) * (x * Pow2(s))
  }

  lemma LostAccounts(x: nat, i: nat, k: nat, s: nat)
    requires x < BASE && s < 32
    ensures var y := x * Pow2(s);
            && (s == 0 ==> y / BASE == 0)
            && (i + k + 1 < WIDTH ==> Pow(i + k) * (y % BASE) + Pow(i + k + 1) * (y / BASE) == Pow(i + k) * y)
            && (i + k + 1 == WIDTH ==> Pow(i + k) * (y % BASE) + Modulus() * (y / BASE) == Pow(i + k) * y)
            && (i + k >= WIDTH ==> Modulus() * LostPart(x, i, k, s) == Pow(i + k) * y)
  {
    hide Pow;
    var y := x * Pow2(s);
    if s == 0 {
      assert y == x;
    }
    if i + k < WIDTH {
      PowStep(i + k);
      CarryStep(Pow(i + k), y);
    } else {
      PowIsPow2(WIDTH);
      PowIsPow2(i + k - WIDTH);
      PowIsPow2(i + k);
      Pow2Add(32 * WIDTH, 32 * (i + k - WIDTH));
      MulAssoc(Pow(WIDTH), Pow(i + k - WIDTH), y);
    }
  }

  /** What one limb adds to a right shift by 32 * k + s. */
  ghost function DownPart(x: nat, i: nat, k: nat, s: nat): int
    requires s < 32
  {
    if i < k then 0
    else if i == k then x / Pow2(s)
    else Pow(i - k - 1) * (x * Pow2(32 - s))
  }

  lemma DownLimb(x: nat, s: nat)
    requires x < BASE && s < 32
    ensures x / Pow2(s) < Pow2(32 - s) && x / Pow2(s) == x * Pow2(32 - s) / BASE
    ensures x / Pow2(s) < BASE
    ensures s == 0 ==> x * Pow2(32 - s) % BASE == 0
  {
    Pow2Is32();
    if s == 0 {
      assert x / Pow2(0) == x;
      DivUnique(x * BASE, BASE, x, 0);
    } else {
      ShiftParts(x, 32 - s);
      Pow2Mono(32 - s, 32);
    }
  }

  lemma ShiftedDown(v: nat, i: nat, k: nat, s: nat, x: nat)
    requires v < Pow(i) && x < BASE && s < 32
    ensures (v + Pow(i) * x) / Pow2(32 * k + s) == v / Pow2(32 * k + s) + DownPart(x, i, k, s)
  {
    hide Pow, Pow2;
    if i < k {
      ShiftedOut(v, i, k, s, x);
    } else if i == k {
      ShiftedDownAt(v, Pow(i), s, x);
      PowIsPow2(k);
      Pow2Add(32 * k, s);
    } else {
      ShiftedWhole(v, i, k, s, x);
    }
  }

  /** Limbs below the shift are shifted out. */
  lemma ShiftedOut(v: nat, i: nat, k: nat, s: nat, x: nat)
    requires v < Pow(i) && x < BASE && i < k
    ensures (v + Pow(i) * x) / Pow2(32 * k + s) == v / Pow2(32 * k + s) == 0
  {
    hide Pow, Pow2;
    var d := Pow2(32 * k + s);
    PowIsPow2(i + 1);
    PowStep(i);
    MulMono(Pow(i), x + 1, BASE);
    MulDist(Pow(i), x, 1);
    Pow2Mono(32 * (i + 1), 32 * k + s);
    DivUnique(v, d, 0, v);
    DivUnique(v + Pow(i) * x, d, 0, v + Pow(i) * x);
  }

  /** A limb above the shift moves down whole. */
  lemma ShiftedWhole(v: nat, i: nat, k: nat, s: nat, x: nat)
    requires i > k && s < 32
    ensures (v + Pow(i) * x) / Pow2(32 * k + s)
         == v / Pow2(32 * k + s) + Pow(i - k - 1) * (x * Pow2(32 - s))
  {
    hide Pow, Pow2;
    var d, e := Pow2(32 * k + s), Pow(i - k - 1) * Pow2(32 - s);
    assert Pow(i) == d * e by {
      PowIsPow2(i);
      PowIsPow2(i - k - 1);
      Pow2Add(32 * (i - k - 1), 32 - s);
      Pow2Add(32 * k + s, 32 * (i - k - 1) + (32 - s));
    }
    MulAssoc(d, e, x);
    DivAddMultiple(v, d, e * x);
    MulAssoc(Pow(i - k - 1), Pow2(32 - s), x);
  }

  lemma DivAddMultiple(v: nat, d: nat, q: int)
    requires d > 0
    ensures (v + d * q) / d == v / d + q
  {
    DivModFacts(v, d);
    MulDist(d, v / d, q);
    DivUnique(v + d * q, d, v / d + q, v % d);
  }

  lemma ShiftedDownAt(v: nat, p: nat, s: nat, x: nat)
    requires v < p
    ensures (v + p * x) / (p * Pow2(s)) == x / Pow2(s) && v / (p * Pow2(s)) == 0
  {
    hide Pow2;
    var m := Pow2(s);
    var q, r := x / m, x % m;
    DivModFacts(x, m);
    MulDist(p, m * q, r);
    MulAssoc(p, m, q);
    MulMono(p, r + 1, m);
    MulDist(p, r, 1);
    DivUnique(v + p * x, p * m, q, v + p * r);
    MulMono(p, 1, m);
    DivUnique(v, p * m, 0, v);
  }

  /** What one limb adds to a left shift by 32 * k + s. */
  lemma ShiftedLimb(i: nat, k: nat, s: nat, x: nat)
    ensures Pow(i) * x * Pow2(32 * k + s) == Pow(i + k) * (x * Pow2(s))
  {
    hide Pow, Pow2;
    var a, b, m := Pow(i), Pow(k), Pow2(s);
    PowIsPow2(i);
    PowIsPow2(k);
    PowIsPow2(i + k);
    Pow2Add(32 * i, 32 * k);
    Pow2Add(32 * k, s);
    assert 32 * i + 32 * k == 32 * (i + k);
    assert a * x * (b * m) == (a * b) * (x * m) by {
      MulAssoc(a * x, b, m);
      MulAssoc(a, x, b);
      MulAssoc(a, b, x);
      MulAssoc(a * b, x, m);
    }
  }

  /** The highest set bit of a nonzero limb, looked for from bit 31 down. */
  method HighBit(x: nat) returns (n: nat)
    requires 0 < x < BASE
    ensures n < 32 && Pow2(n) <= x < Pow2(n + 1)
  {
    Pow2Is32();
    n := 31;
    while n > 0
      invariant n < 32 && x < Pow2(n + 1)
    {
      TopBit(x, n);
      if x / Pow2(n) % 2 == 1 {
        return;
      }
      n := n - 1;
    }
  }

  lemma TopBit(x: nat, n: nat)
    requires x < Pow2(n + 1)
    ensures x / Pow2(n) % 2 == 1 <==> x >= Pow2(n)
  {
    if x >= Pow2(n) {
      DivUnique(x, Pow2(n), 1, x - Pow2(n));
    } else {
      DivUnique(x, Pow2(n), 0, x);
    }
  }

  lemma SubByComplement(x: nat, y: nat)
    requires x < Modulus() && y < Modulus()
    ensures Wrap(x + Wrap(Modulus() - y)) == Wrap(x - y)
  {
    hide Wrap, Pow;
    var m := Modulus();
    if y == 0 {
      WrapIs(m, 1, 0);
    } else {
      WrapIs(m - y, 0, m - y);
      if x >= y {
        WrapIs(x + (m - y), 1, x - y);
        WrapIs(x - y, 0, x - y);
      } else {
        WrapIs(x + (m - y), 0, x + m - y);
        WrapIs(x - y, -1, x + m - y);
      }
    }
  }
}
