/** The field with 1024 elements as polynomials in z over GF(2), modulo
    z^10 + z^8 + z^5 + z + 1, of which z generates all but zero. Elements are 10-bit
    numbers and addition is exclusive or. */
module Field1024 {
  import opened Bech32
  import opened Nonlinear

  function Twice(v: bv32): bv32 { v << 1 }

  /** Multiply by z. */
  function TimesZ(v: bv32): bv32 { Xor(Twice(v), If(v, 0x200, 0x523)) }

  lemma TwiceLinear(v: bv32, w: bv32)
    ensures Twice(Xor(v, w)) == Xor(Twice(v), Twice(w))
  {
  }

  lemma TenthBit()
    ensures OneBit(0x200)
  {
  }

  lemma TimesZLinear(v: bv32, w: bv32)
    ensures TimesZ(Xor(v, w)) == Xor(TimesZ(v), TimesZ(w))
  {
    hide Xor, If, Twice, OneBit;
    TenthBit();
    TwiceLinear(v, w);
    IfLinear(v, w, 0x200, 0x523);
    XorSwap(Twice(v), Twice(w), If(v, 0x200, 0x523), If(w, 0x200, 0x523));
  }

  lemma TimesZZero()
    ensures TimesZ(0) == 0
  {
  }

  lemma TimesZSmall(v: bv32)
    requires v < 1024
    ensures TimesZ(v) < 1024 && (TimesZ(v) == 0 ==> v == 0)
  {
  }

  lemma XorSmall(v: bv32, w: bv32)
    requires v < 1024 && w < 1024
    ensures Xor(v, w) < 1024
  {
  }

  /** Multiply by z^n. */
  ghost function Shift(n: nat, v: bv32): bv32 {
    if n == 0 then v else TimesZ(Shift(n - 1, v))
  }

  lemma {:induction false} ShiftAdd(a: nat, b: nat, v: bv32)
    ensures Shift(a + b, v) == Shift(a, Shift(b, v))
    decreases a
  {
    hide TimesZ;
    if a > 0 { ShiftAdd(a - 1, b, v); }
  }

  lemma {:induction false} ShiftLinear(n: nat, v: bv32, w: bv32)
    ensures Shift(n, Xor(v, w)) == Xor(Shift(n, v), Shift(n, w)) && Shift(n, 0) == 0
  {
    hide TimesZ, Xor;
    TimesZZero();
    if n > 0 {
      ShiftLinear(n - 1, v, w);
      TimesZLinear(Shift(n - 1, v), Shift(n - 1, w));
    }
  }

  lemma {:induction false} ShiftSmall(n: nat, v: bv32)
    requires v < 1024
    ensures Shift(n, v) < 1024 && (Shift(n, v) == 0 ==> v == 0)
  {
    hide TimesZ;
    if n > 0 {
      ShiftSmall(n - 1, v);
      TimesZSmall(Shift(n - 1, v));
    }
  }

  /** Equal after the same shift is equal before. */
  lemma ShiftInjective(n: nat, v: bv32, w: bv32)
    requires v < 1024 && w < 1024 && Shift(n, v) == Shift(n, w)
    ensures v == w
  {
    hide Shift, Xor;
    XorSmall(v, w);
    ShiftLinear(n, v, w);
    XorEqual(Shift(n, v), Shift(n, w));
    ShiftSmall(n, Xor(v, w));
    XorEqual(v, w);
  }

  // ---------- products ----------

  /** One step of Horner's rule: times z, plus c if this bit of v is set. */
  function Horner(a: bv32, c: bv32, v: bv32, bit: bv32): bv32 {
    Xor(Xor(a << 1, if a & 0x200 != 0 then 0x523 else 0), if v & bit != 0 then c else 0)
  }

  lemma Unwrapped(a: bv32, c: bv32, v: bv32, bit: bv32)
    ensures And(a, 0x200) == a & 0x200 && And(v, bit) == v & bit && Twice(a) == a << 1
  {
  }

  lemma HornerIs(a: bv32, c: bv32, v: bv32, bit: bv32)
    ensures Horner(a, c, v, bit) == Xor(TimesZ(a), If(v, bit, c))
  {
    hide Xor, And, Twice;
    Unwrapped(a, c, v, bit);
  }

  function Upper(c: bv32, v: bv32): bv32 {
    Horner(Horner(Horner(Horner(Horner(0, c, v, 0x200), c, v, 0x100), c, v, 0x80), c, v, 0x40), c, v, 0x20)
  }

  function Product(c: bv32, v: bv32): bv32 {
    Horner(Horner(Horner(Horner(Horner(Upper(c, v), c, v, 0x10), c, v, 0x8), c, v, 0x4), c, v, 0x2), c, v, 0x1)
  }

  lemma HornerShifts(a: bv32, c: bv32, v: bv32, bit: bv32)
    ensures TimesZ(Horner(a, c, v, bit)) == Horner(TimesZ(a), TimesZ(c), v, bit)
  {
    hide TimesZ, Xor, And, Horner;
    HornerIs(a, c, v, bit);
    HornerIs(TimesZ(a), TimesZ(c), v, bit);
    TimesZLinear(TimesZ(a), If(v, bit, c));
    TimesZZero();
  }

  lemma UpperShifts(c: bv32, v: bv32)
    ensures TimesZ(Upper(c, v)) == Upper(TimesZ(c), v)
  {
    hide TimesZ, Horner;
    TimesZZero();
    var a := Horner(0, c, v, 0x200);
    HornerShifts(0, c, v, 0x200);
    var b := Horner(a, c, v, 0x100);
    HornerShifts(a, c, v, 0x100);
    var d := Horner(b, c, v, 0x80);
    HornerShifts(b, c, v, 0x80);
    var e := Horner(d, c, v, 0x40);
    HornerShifts(d, c, v, 0x40);
    HornerShifts(e, c, v, 0x20);
  }

  lemma ProductShifts(c: bv32, v: bv32)
    ensures TimesZ(Product(c, v)) == Product(TimesZ(c), v)
  {
    hide TimesZ, Horner, Upper;
    UpperShifts(c, v);
    var a := Horner(Upper(c, v), c, v, 0x10);
    HornerShifts(Upper(c, v), c, v, 0x10);
    var b := Horner(a, c, v, 0x8);
    HornerShifts(a, c, v, 0x8);
    var d := Horner(b, c, v, 0x4);
    HornerShifts(b, c, v, 0x4);
    var e := Horner(d, c, v, 0x2);
    HornerShifts(d, c, v, 0x2);
    HornerShifts(e, c, v, 0x1);
  }

  lemma ProductOne(v: bv32)
    requires v < 1024
    ensures Product(1, v) == v
  {
    hide Horner;
    HornerOneUpper(v);
    HornerOneMiddle(v);
    HornerOneLower(v);
    HornerOneLast(v);
  }

  /** Times one, a bit at a time from the top. */
  lemma HornerOneUpper(v: bv32)
    requires v < 1024
    ensures Horner(0, 1, v, 0x200) == v >> 9 && Horner(v >> 9, 1, v, 0x100) == v >> 8
    ensures Horner(v >> 8, 1, v, 0x80) == v >> 7 && Horner(v >> 7, 1, v, 0x40) == v >> 6
    ensures Horner(v >> 6, 1, v, 0x20) == v >> 5
  {
  }

  lemma HornerOneMiddle(v: bv32)
    requires v < 1024
    ensures Horner(v >> 5, 1, v, 0x10) == v >> 4 && Horner(v >> 4, 1, v, 0x8) == v >> 3
  {
  }

  lemma HornerOneLower(v: bv32)
    requires v < 1024
    ensures Horner(v >> 3, 1, v, 0x4) == v >> 2 && Horner(v >> 2, 1, v, 0x2) == v >> 1
  {
  }

  lemma HornerOneLast(v: bv32)
    requires v < 1024
    ensures Horner(v >> 1, 1, v, 0x1) == v
  {
  }

  /** Products distribute over sums. */
  lemma HornerLinear(a: bv32, b: bv32, c: bv32, d: bv32, v: bv32, bit: bv32)
    ensures Horner(Xor(a, b), Xor(c, d), v, bit) == Xor(Horner(a, c, v, bit), Horner(b, d, v, bit))
  {
    hide TimesZ, Xor, And, Horner;
    HornerIs(Xor(a, b), Xor(c, d), v, bit);
    HornerIs(a, c, v, bit);
    HornerIs(b, d, v, bit);
    TimesZLinear(a, b);
    XorZero(0);
    XorSwap(TimesZ(a), TimesZ(b), If(v, bit, c), If(v, bit, d));
  }

  lemma UpperLinear(c: bv32, d: bv32, v: bv32)
    ensures Upper(Xor(c, d), v) == Xor(Upper(c, v), Upper(d, v))
  {
    hide Horner, Xor;
    XorZero(0);
    var c1, d1 := Horner(0, c, v, 0x200), Horner(0, d, v, 0x200);
    HornerLinear(0, 0, c, d, v, 0x200);
    var c2, d2 := Horner(c1, c, v, 0x100), Horner(d1, d, v, 0x100);
    HornerLinear(c1, d1, c, d, v, 0x100);
    var c3, d3 := Horner(c2, c, v, 0x80), Horner(d2, d, v, 0x80);
    HornerLinear(c2, d2, c, d, v, 0x80);
    var c4, d4 := Horner(c3, c, v, 0x40), Horner(d3, d, v, 0x40);
    HornerLinear(c3, d3, c, d, v, 0x40);
    HornerLinear(c4, d4, c, d, v, 0x20);
  }

  lemma ProductLinear(c: bv32, d: bv32, v: bv32)
    ensures Product(Xor(c, d), v) == Xor(Product(c, v), Product(d, v))
  {
    hide Horner, Upper, Xor;
    UpperLinear(c, d, v);
    var c1, d1 := Horner(Upper(c, v), c, v, 0x10), Horner(Upper(d, v), d, v, 0x10);
    HornerLinear(Upper(c, v), Upper(d, v), c, d, v, 0x10);
    var c2, d2 := Horner(c1, c, v, 0x8), Horner(d1, d, v, 0x8);
    HornerLinear(c1, d1, c, d, v, 0x8);
    var c3, d3 := Horner(c2, c, v, 0x4), Horner(d2, d, v, 0x4);
    HornerLinear(c2, d2, c, d, v, 0x4);
    var c4, d4 := Horner(c3, c, v, 0x2), Horner(d3, d, v, 0x2);
    HornerLinear(c3, d3, c, d, v, 0x2);
    HornerLinear(c4, d4, c, d, v, 0x1);
  }

  /** Shifting is multiplying by a power of z. */
  lemma {:induction false} ShiftIsProduct(n: nat, v: bv32)
    requires v < 1024
    ensures Shift(n, v) == Product(Shift(n, 1), v)
  {
    hide TimesZ, Product;
    if n == 0 {
      ProductOne(v);
    } else {
      ShiftIsProduct(n - 1, v);
      ProductShifts(Shift(n - 1, 1), v);
    }
  }

  lemma PowerAdd(a: nat, b: nat, x: bv32, y: bv32)
    requires Shift(a, 1) == x && Shift(b, 1) == y
    ensures Shift(a + b, 1) == Product(x, y)
  {
    hide Product, Shift;
    ShiftAdd(a, b, 1);
    ShiftSmall(b, 1);
    ShiftIsProduct(a, y);
  }

  // ---------- the order of z ----------

  lemma FirstPowers()
    ensures Shift(24, 1) == 0x3f0 && Shift(25, 1) == 0x2c3 && Shift(26, 1) == 0xa5
    ensures Shift(27, 1) == 0x14a && Shift(31, 1) == 0x2c && Shift(33, 1) == 0xb0
  {
    assert Shift(8, 1) == 0x100;
    assert Shift(16, 1) == 0x119;
    assert Shift(24, 1) == 0x3f0;
  }

  lemma MiddlePowers()
    ensures Shift(62, 1) == 0x173 && Shift(66, 1) == 0x3bc && Shift(93, 1) == 0x36a && Shift(186, 1) == 0x96
  {
    hide Shift;
    FirstPowers();
    PowerAdd(31, 31, 0x2c, 0x2c);
    PowerAdd(33, 33, 0xb0, 0xb0);
    PowerAdd(66, 27, 0x3bc, 0x14a);
    PowerAdd(93, 93, 0x36a, 0x36a);
  }

  lemma Thirds()
    ensures Shift(341, 1) == 0x36 && Shift(682, 1) == 0x37 && Shift(1023, 1) == 1
  {
    hide Shift;
    MiddlePowers();
    PowerAdd(186, 93, 0x96, 0x36a);
    PowerAdd(279, 62, 0x19e, 0x173);
    PowerAdd(341, 341, 0x36, 0x36);
    PowerAdd(682, 341, 0x37, 0x36);
  }

  lemma Power426()
    ensures Shift(426, 1) == 0x36b
  {
    hide Shift;
    FirstPowers();
    MiddlePowers();
    PowerAdd(186, 27, 0x96, 0x14a);
    PowerAdd(213, 213, 0x3d3, 0x3d3);
  }

  lemma Power429()
    ensures Shift(429, 1) == 0xb1
  {
    hide Shift;
    FirstPowers();
    MiddlePowers();
    Thirds();
    PowerAdd(341, 62, 0x36, 0x173);
    PowerAdd(403, 26, 0x3ee, 0xa5);
  }

  /** z^n + 1 is another power of z, so multiplying by z^n moves all but zero. */
  lemma Moves(n: nat, m: nat, v: bv32)
    requires v < 1024 && Shift(n, v) == v && Xor(Shift(n, 1), 1) == Shift(m, 1)
    ensures v == 0
  {
    hide Shift, Product, Xor;
    ShiftIsProduct(n, v);
    ShiftIsProduct(m, v);
    ProductLinear(Shift(n, 1), 1, v);
    ProductOne(v);
    XorZero(v);
    ShiftSmall(m, v);
  }

  /** No power of z below the 1023rd is one: only the full turn leaves anything but
      zero where it is. */
  ghost predicate Period(n: nat, v: bv32) { Shift(n, v) == v }

  lemma FullTurn(v: bv32)
    requires v < 1024
    ensures Period(1023, v)
  {
    hide Shift, Product;
    Thirds();
    ShiftIsProduct(1023, v);
    ProductOne(v);
  }

  lemma ThreeTurns(v: bv32)
    requires v < 1024 && v != 0
    ensures !Period(33, v) && !Period(93, v) && !Period(341, v)
  {
    hide Shift;
    FirstPowers();
    MiddlePowers();
    Thirds();
    Power426();
    Power429();
    if Period(33, v) { Moves(33, 429, v); }
    if Period(93, v) { Moves(93, 426, v); }
    if Period(341, v) { Moves(341, 682, v); }
  }

  lemma {:induction false} PeriodTimes(n: nat, k: nat, v: bv32)
    requires Period(n, v)
    ensures Period(k * n, v)
    decreases k
  {
    hide Shift;
    if k == 0 {
      assert 0 * n == 0;
      ShiftNone(v);
    } else {
      PeriodTimes(n, k - 1, v);
      assert k * n == (k - 1) * n + n;
      ShiftAdd((k - 1) * n, n, v);
    }
  }

  lemma ShiftNone(v: bv32)
    ensures Shift(0, v) == v
  {
  }

  lemma PeriodRest(a: nat, b: nat, v: bv32)
    requires v < 1024 && b <= a && Period(a, v) && Period(b, v)
    ensures Period(a - b, v)
  {
    hide Shift;
    ShiftAdd(b, a - b, v);
    ShiftSmall(a - b, v);
    ShiftInjective(b, Shift(a - b, v), v);
  }

  /** The greatest common divisor of two periods is one. */
  lemma {:induction false} CommonPeriod(a: nat, b: nat, v: bv32) returns (g: nat)
    requires a > 0 && b > 0 && v < 1024 && Period(a, v) && Period(b, v)
    ensures 0 < g <= a && Period(g, v) && a % g == 0 && b % g == 0
    decreases a + b
  {
    hide Period;
    if a == b {
      g := a;
    } else if a > b {
      PeriodRest(a, b, v);
      g := CommonPeriod(a - b, b, v);
      DividesSum(a - b, b, g);
    } else {
      PeriodRest(b, a, v);
      g := CommonPeriod(a, b - a, v);
      DividesSum(b - a, a, g);
    }
  }

  lemma DividesSum(a: nat, b: nat, g: nat)
    requires g > 0 && a % g == 0 && b % g == 0
    ensures (a + b) % g == 0
  {
    DivModFacts(a, g);
    DivModFacts(b, g);
    MulDist(g, a / g, b / g);
    DivUnique(a + b, g, a / g + b / g, 0);
  }

  /** The proper divisors of 1023 = 3 * 11 * 31. */
  lemma Divisors(g: nat)
    requires 0 < g < 1023 && 1023 % g == 0
    ensures g in {1, 3, 11, 31, 33, 93, 341}
  {
  }

  /** Only multiples of 1023 shift anything but zero to itself. */
  lemma NoShortPeriod(n: nat, v: bv32)
    requires 0 < n < 1023 && v < 1024 && Period(n, v)
    ensures v == 0
  {
    hide Period;
    FullTurn(v);
    var g := CommonPeriod(n, 1023, v);
    Divisors(g);
    if v != 0 {
      ThreeTurns(v);
      if 33 % g == 0 {
        PeriodTimes(g, 33 / g, v);
      } else if 93 % g == 0 {
        PeriodTimes(g, 93 / g, v);
      } else {
        PeriodTimes(g, 341 / g, v);
      }
    }
  }
}
