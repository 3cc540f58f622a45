/** The "compact" 32-bit form of difficulty targets: an exponent byte, a sign
    bit and a 23-bit mantissa, with value mantissa * 256^(exponent - 3). */
module Compact {
  import opened Limbs
  import opened Nonlinear
  import opened Arith256

  ghost function Pow256(n: nat): (r: nat)
    ensures r >= 1
  {
    Pow2(8 * n)
  }

  /** x without its last n base-256 digits. */
  ghost function Drop(x: nat, n: nat): nat {
    Quotient(x, Pow256(n))
  }

  /** How many base-256 digits x has. */
  ghost function ByteLen(x: nat): nat {
    if x == 0 then 0 else 1 + ByteLen(x / 256)
  }

  /** What the 32-bit form stands for, as SetCompact reads it. */
  datatype Reading = Reading(value: nat, negative: bool, overflow: bool)

  const SIGN: nat := 0x80_0000
  const EXPONENT: nat := 0x100_0000

  ghost function Mantissa(c: nat): nat { c % SIGN }

  ghost function Exponent(c: nat): nat { c / EXPONENT }

  ghost predicate Signed(c: nat) { c / SIGN % 2 == 1 }

  /** The mantissa that is left once digits below the point are dropped. */
  ghost function Word(c: nat): nat {
    if Exponent(c) <= 3 then Drop(Mantissa(c), 3 - Exponent(c)) else Mantissa(c)
  }

  ghost function Decode(c: nat): Reading {
    var word, size := Word(c), Exponent(c);
    Reading(if size <= 3 then word else Wrap(word * Pow256(size - 3)),
            word != 0 && Signed(c),
            word != 0 && (size > 34 || (word > 0xff && size > 33) || (word > 0xffff && size > 32)))
  }

  /** The leading digits of x, before the sign bit is kept clear. */
  ghost function Leading(x: nat): nat {
    var n := ByteLen(x);
    if n <= 3 then x * Pow256(3 - n) else Drop(x, n - 3)
  }

  /** Mantissa and exponent as GetCompact picks them. */
  ghost function Parts(x: nat): (nat, nat) {
    if Leading(x) >= SIGN then (Leading(x) / 256, ByteLen(x) + 1) else (Leading(x), ByteLen(x))
  }

  ghost function Encode(x: nat, negative: bool): nat {
    var (m, e) := Parts(x);
    m + e * EXPONENT + if negative && m != 0 then SIGN else 0
  }

  // ---------- what the parts of a number are ----------

  /** m and e are the leading digits and exponent of x: m is 256^3 * x / 256^e
      rounded down, and has a nonzero digit where the sign bit allows it. */
  ghost predicate Represents(x: nat, m: nat, e: nat) {
    0x8000 <= m < SIGN && m * Pow256(e) <= EXPONENT * x < (m + 1) * Pow256(e)
  }

  lemma Pow256Add(a: nat, b: nat)
    ensures Pow256(a + b) == Pow256(a) * Pow256(b)
  {
    Pow2Add(8 * a, 8 * b);
  }

  lemma Pow256Small()
    ensures Pow256(0) == 1 && Pow256(1) == 256 && Pow256(2) == 65536 && Pow256(3) == EXPONENT
  {
    assert Pow2(8) == 256;
    Pow256Add(1, 1);
    Pow256Add(2, 1);
  }

  lemma Pow256Step(n: nat)
    ensures Pow256(n + 1) == 256 * Pow256(n) && Pow256(n) >= 1
  {
    Pow256Small();
    Pow256Add(n, 1);
  }

  lemma {:induction false} ByteLenBounds(x: nat)
    requires x > 0
    ensures ByteLen(x) >= 1 && Pow256(ByteLen(x) - 1) <= x < Pow256(ByteLen(x))
  {
    hide Pow256;
    if x < 256 {
      Pow256Small();
      assert ByteLen(x / 256) == 0;
    } else {
      ByteLenBounds(x / 256);
      Pow256Step(ByteLen(x / 256) - 1);
      Pow256Step(ByteLen(x / 256));
    }
  }

  lemma {:induction false} ByteLenIs(x: nat, n: nat)
    requires n >= 1 && Pow256(n - 1) <= x < Pow256(n)
    ensures ByteLen(x) == n
    decreases n
  {
    hide Pow256;
    Pow256Small();
    Pow256Step(n - 1);
    if n == 1 {
      assert ByteLen(x / 256) == 0;
    } else {
      Pow256Step(n - 2);
      ByteLenIs(x / 256, n - 1);
    }
  }

  /** The bit length, rounded up to bytes, is the number of bytes. */
  lemma BitsToBytes(x: nat, bits: nat)
    requires x > 0 && bits >= 1 && Pow2(bits - 1) <= x < Pow2(bits)
    ensures (bits + 7) / 8 == ByteLen(x)
  {
    hide Pow2;
    var n := (bits + 7) / 8;
    Pow2Mono(8 * (n - 1), bits - 1);
    Pow2Mono(bits, 8 * n);
    ByteLenIs(x, n);
  }

  lemma LeadingFloor(x: nat)
    ensures var n, m := ByteLen(x), Leading(x);
            m * Pow256(n) <= EXPONENT * x < (m + 1) * Pow256(n)
  {
    hide Pow256;
    var n, m := ByteLen(x), Leading(x);
    Pow256Small();
    Pow256Step(n);
    if n <= 3 {
      Pow256Add(3 - n, n);
      MulAssoc(x, Pow256(3 - n), Pow256(n));
      MulDist(Pow256(n), m, 1);
    } else {
      Pow256Add(n - 3, 3);
      var d, r := Pow256(n - 3), x % Pow256(n - 3);
      Pow256Step(n - 3);
      DivModFacts(x, d);
      MulAssoc(m, d, EXPONENT);
      MulAssoc(m + 1, d, EXPONENT);
      MulDist(d, m, 1);
    }
  }

  lemma LeadingRange(x: nat)
    requires x > 0
    ensures 0x1_0000 <= Leading(x) < EXPONENT
  {
    hide Pow256, Leading, ByteLen;
    LeadingFloor(x);
    ByteLenBounds(x);
    var n, m := ByteLen(x), Leading(x);
    var p := Pow256(n - 1);
    Pow256Step(n - 1);
    if m >= EXPONENT {
      MulMono(256 * p, EXPONENT, m);
    }
    if m + 1 <= 0x1_0000 {
      MulMono(256 * p, m + 1, 0x1_0000);
    }
  }

  lemma PartsRepresent(x: nat)
    requires x > 0
    ensures Represents(x, Parts(x).0, Parts(x).1)
  {
    hide Pow256, Leading, ByteLen;
    LeadingFloor(x);
    LeadingRange(x);
    var n, m := ByteLen(x), Leading(x);
    var p := Pow256(n);
    Pow256Step(n);
    if m >= SIGN {
      var h := m / 256;
      MulMono(p, 256 * h, m);
      MulMono(p, m + 1, 256 * (h + 1));
      MulAssoc(h, 256, p);
      MulAssoc(h + 1, 256, p);
    }
  }

  lemma {:induction false} Pow256Grows(a: nat, b: nat)
    requires a < b
    ensures 256 * Pow256(a) <= Pow256(b)
  {
    hide Pow256;
    Pow256Step(a);
    Pow2Mono(8 * (a + 1), 8 * b);
    assert Pow256(a + 1) <= Pow256(b) by { PowMono256(a + 1, b); }
  }

  lemma PowMono256(a: nat, b: nat)
    requires a <= b
    ensures Pow256(a) <= Pow256(b)
  {
    Pow2Mono(8 * a, 8 * b);
  }

  /** Order is decided by the exponent, then by the mantissa. */
  lemma RepresentsOrder(x: nat, m: nat, e: nat, y: nat, k: nat, f: nat)
    requires Represents(x, m, e) && Represents(y, k, f) && x <= y
    ensures e < f || (e == f && m <= k)
  {
    hide Pow256;
    if f < e {
      Pow256Grows(f, e);
      MulMono(Pow256(f), k + 1, SIGN);
      MulMono(Pow256(e), 0x8000, m);
    } else if e == f && k < m {
      MulMono(Pow256(e), k + 1, m);
    }
  }

  lemma PartsUnique(x: nat, m: nat, e: nat)
    requires x > 0 && Represents(x, m, e)
    ensures Parts(x) == (m, e)
  {
    hide Pow256, Leading, Represents, Parts;
    PartsRepresent(x);
    var (k, f) := Parts(x);
    RepresentsOrder(x, m, e, x, k, f);
    RepresentsOrder(x, k, f, x, m, e);
  }

  // ---------- the exponent's range ----------

  lemma ModulusIs()
    ensures Modulus() == Pow256(32)
  {
    PowIsPow2(WIDTH);
  }

  lemma ExponentRange(x: nat, m: nat, e: nat)
    requires Represents(x, m, e) && x < Modulus()
    ensures 1 <= e <= 33 && (e == 33 ==> m <= 0xffff)
  {
    hide Pow256, Modulus;
    ModulusIs();
    Pow256Step(32);
    if e == 0 {
      Pow256Small();
    } else if e >= 34 {
      Pow256Step(33);
      PowMono256(34, e);
      MulMono(Pow256(e), 0x8000, m);
    } else if e == 33 && m > 0xffff {
      MulMono(Pow256(33), 0x1_0000, m);
    }
  }

  lemma SmallExact(x: nat, m: nat, e: nat)
    requires Represents(x, m, e) && 1 <= e <= 3
    ensures m == x * Pow256(3 - e) && Drop(m, 3 - e) == x
  {
    hide Pow256;
    Pow256Small();
    Pow256Add(3 - e, e);
    var n := x * Pow256(3 - e);
    MulAssoc(x, Pow256(3 - e), Pow256(e));
    if n < m {
      MulMono(Pow256(e), n + 1, m);
      MulDist(Pow256(e), n, 1);
    } else if n > m {
      MulMono(Pow256(e), m + 1, n);
    }
    DivUnique(m, Pow256(3 - e), x, 0);
  }

  lemma LargeFloor(x: nat, m: nat, e: nat)
    requires Represents(x, m, e) && e > 3
    ensures m * Pow256(e - 3) <= x < m * Pow256(e - 3) + Pow256(e - 3)
    ensures 0x8000 * Pow256(e - 3) <= x
  {
    hide Pow256;
    Pow256Small();
    Pow256Add(e - 3, 3);
    var p := Pow256(e - 3);
    MulAssoc(m, p, EXPONENT);
    MulAssoc(m + 1, p, EXPONENT);
    MulDist(p, m, 1);
    MulMono(p, 0x8000, m);
  }

  // ---------- reading back what was written ----------

  /** The words GetCompact produces. */
  ghost predicate Canonical(c: nat) {
    || c == 0
    || (&& 0x8000 <= Mantissa(c) && 1 <= Exponent(c) <= 33
        && (Exponent(c) == 33 ==> Mantissa(c) <= 0xffff)
        && (Exponent(c) <= 3 ==> Mantissa(c) % Pow256(3 - Exponent(c)) == 0))
  }

  lemma Fields(m: nat, e: nat, signed: bool)
    requires m < SIGN
    ensures var c := m + e * EXPONENT + if signed then SIGN else 0;
            Mantissa(c) == m && Exponent(c) == e && Signed(c) == signed
  {
    var bit := if signed then 1 else 0;
    var c := m + e * EXPONENT + bit * SIGN;
    DivUnique(c, SIGN, 2 * e + bit, m);
    DivUnique(c, EXPONENT, e, m + bit * SIGN);
  }

  lemma EncodeFields(x: nat, negative: bool)
    requires x > 0
    ensures var c := Encode(x, negative);
            && Mantissa(c) == Parts(x).0 && Exponent(c) == Parts(x).1
            && Signed(c) == negative
  {
    hide Mantissa, Exponent, Signed, Parts, Pow256;
    PartsRepresent(x);
    Fields(Parts(x).0, Parts(x).1, negative);
  }

  lemma EncodeZero(negative: bool)
    ensures Encode(0, negative) == 0
    ensures Decode(0) == Reading(0, false, false)
  {
    hide Pow256;
    DivUnique(0, Pow256(3), 0, 0);
  }

  /** A word made of the parts of x reads as x rounded down to its leading
      digits; the parts are also those of the rounded number. */
  lemma ReadParts(x: nat, c: nat)
    requires 0 < x < Modulus() && Represents(x, Mantissa(c), Exponent(c))
    ensures var d := Decode(c);
            && !d.overflow && d.negative == Signed(c)
            && 0 < d.value <= x && (x - d.value) * 0x8000 < x
            && (Exponent(c) <= 3 ==> d.value == x)
            && (Exponent(c) > 3 ==> x - d.value < Pow256(Exponent(c) - 3))
            && Represents(d.value, Mantissa(c), Exponent(c))
  {
    hide Pow256, Modulus, Wrap, Mantissa, Exponent, Signed, Drop;
    var m, e := Mantissa(c), Exponent(c);
    ExponentRange(x, m, e);
    if e <= 3 {
      SmallExact(x, m, e);
    } else {
      LargeFloor(x, m, e);
      var p := Pow256(e - 3);
      WrapIs(m * p, 0, m * p);
      MulMono(p, 1, m);
      assert Represents(m * p, m, e) by {
        Pow256Small();
        Pow256Add(e - 3, 3);
        MulAssoc(m, p, EXPONENT);
        MulDist(Pow256(e), m, 1);
      }
    }
  }

  /** SetCompact(GetCompact(x)) raises no flag it should not, never exceeds x,
      is off by less than one unit of its last digit and less than one part in 2^15,
      and is a fixed point. */
  lemma RoundTrip(x: nat, negative: bool)
    requires x < Modulus()
    ensures var c := Encode(x, negative);
            var d := Decode(c);
            && (if Exponent(c) <= 3 then d.value == x else x - d.value < Pow256(Exponent(c) - 3))
            && !d.overflow && d.negative == (negative && x > 0)
            && d.value <= x && (x - d.value) * 0x8000 <= x
            && (x < SIGN ==> d.value == x)
            && Encode(d.value, negative) == Encode(x, negative)
  {
    hide Pow256, Modulus, Parts, Represents, Mantissa, Exponent, Signed, Decode;
    EncodeZero(negative);
    if x > 0 {
      var c := Encode(x, negative);
      PartsRepresent(x);
      EncodeFields(x, negative);
      ReadParts(x, c);
      PartsUnique(Decode(c).value, Mantissa(c), Exponent(c));
      if x < SIGN { SmallExponent(x, Mantissa(c), Exponent(c)); }
    }
  }

  lemma SmallExponent(x: nat, m: nat, e: nat)
    requires Represents(x, m, e) && x < SIGN
    ensures e <= 3
  {
    hide Pow256;
    Pow256Small();
    if e >= 4 {
      Pow256Step(3);
      PowMono256(4, e);
      MulMono(Pow256(e), 0x8000, m);
    }
  }

  /** Larger targets have larger compact forms. */
  lemma Monotone(x: nat, y: nat)
    requires x <= y
    ensures Encode(x, false) <= Encode(y, false)
  {
    hide Pow256, Parts, Represents;
    EncodeZero(false);
    if x > 0 {
      PartsRepresent(x);
      PartsRepresent(y);
      var (m, e) := Parts(x);
      var (k, f) := Parts(y);
      RepresentsOrder(x, m, e, y, k, f);
      MantissaRange(x, m, e);
      MantissaRange(y, k, f);
    }
  }

  lemma MantissaRange(x: nat, m: nat, e: nat)
    requires Represents(x, m, e)
    ensures 0x8000 <= m < SIGN
  {
  }

  lemma EncodeCanonical(x: nat, negative: bool)
    requires x < Modulus()
    ensures Canonical(Encode(x, negative))
  {
    hide Pow256, Modulus, Parts, Mantissa, Exponent, Signed;
    EncodeZero(negative);
    if x > 0 {
      PartsRepresent(x);
      EncodeFields(x, negative);
      var (m, e) := Parts(x);
      ExponentRange(x, m, e);
      if e <= 3 {
        SmallExact(x, m, e);
        DivUnique(m, Pow256(3 - e), x, 0);
      }
    }
  }

  lemma CanonicalWord(c: nat)
    requires Canonical(c) && c > 0
    ensures var d := Decode(c);
            0 < d.value < Modulus() && !d.overflow && Represents(d.value, Mantissa(c), Exponent(c))
  {
    hide Pow256, Modulus, Wrap, Mantissa, Exponent, Signed;
    var m, e := Mantissa(c), Exponent(c);
    MantissaSmall(c);
    Pow256Small();
    ModulusIs();
    if e <= 3 {
      var p := Pow256(3 - e);
      DivModFacts(m, p);
      Pow256Add(3 - e, e);
      MulAssoc(m / p, p, Pow256(e));
      MulDist(Pow256(e), m, 1);
      PowMono256(3, 32);
      MulMono(m / p, 1, p);
    } else {
      var p := Pow256(e - 3);
      assert m * p < Pow256(32) by { FitsBelow(m, e); }
      MulMono(p, 1, m);
      WrapIs(m * p, 0, m * p);
      Pow256Add(e - 3, 3);
      MulAssoc(m, p, EXPONENT);
      MulDist(Pow256(e), m, 1);
    }
  }

  lemma MantissaSmall(c: nat)
    ensures Mantissa(c) < SIGN
  {
  }

  lemma FitsBelow(m: nat, e: nat)
    requires 4 <= e <= 33 && m < SIGN && (e == 33 ==> m <= 0xffff)
    ensures m * Pow256(e - 3) < Pow256(32)
  {
    hide Pow256;
    Pow256Small();
    if e == 33 {
      Pow256Add(30, 2);
      MulMono(Pow256(30), m, 0xffff);
    } else {
      Pow256Add(29, 3);
      PowMono256(e - 3, 29);
      MulMono(m, Pow256(e - 3), Pow256(29));
      MulMono(Pow256(29), m, SIGN);
    }
  }

  /** Reading and writing back restores exactly the canonical words. */
  lemma RewriteIff(c: nat)
    ensures Encode(Decode(c).value, Decode(c).negative) == c <==> Canonical(c)
  {
    hide Pow256, Modulus, Parts, Mantissa, Exponent, Signed, Decode, Represents, Canonical;
    DecodeBounded(c);
    EncodeCanonical(Decode(c).value, Decode(c).negative);
    if Canonical(c) {
      EncodeZero(false);
      if c > 0 {
        CanonicalWord(c);
        var x := Decode(c).value;
        PartsUnique(x, Mantissa(c), Exponent(c));
        ReadParts(x, c);
        EncodeFields(x, Signed(c));
        SameFields(c, Encode(x, Signed(c)));
      }
    }
  }

  lemma SameFields(c: nat, d: nat)
    requires Mantissa(c) == Mantissa(d) && Exponent(c) == Exponent(d) && Signed(c) == Signed(d)
    ensures c == d
  {
  }

  lemma DecodeBounded(c: nat)
    ensures Decode(c).value < Modulus()
  {
    hide Pow256;
    ModulusIs();
    if Exponent(c) <= 3 {
      var m, p := Mantissa(c), Pow256(3 - Exponent(c));
      DivModFacts(m, p);
      MulMono(m / p, 1, p);
      Pow256Small();
      PowMono256(3, 32);
    }
  }

  // ---------- the operations ----------

  method SetCompact(t: BaseUint, c: nat) returns (negative: bool, overflow: bool)
    requires t.Valid() && c < BASE
    modifies t.pn
    ensures Reading(t.Value(), negative, overflow) == Decode(c)
  {
    hide Pow256, Wrap;
    var size, word := c / EXPONENT, c % SIGN;
    if size <= 3 {
      DropIs(word, 3 - size);
      word := word / Pow2(8 * (3 - size));
      t.Assign(word);
    } else {
      t.Assign(word);
      t.ShiftLeftAssign(8 * (size - 3));
      Pow256Is(size - 3);
    }
    negative := word != 0 && c / SIGN % 2 == 1;
    overflow := word != 0 && (size > 34 || (word > 0xff && size > 33) || (word > 0xffff && size > 32));
  }

  lemma Pow256Is(n: nat)
    ensures Pow2(8 * n) == Pow256(n)
  {
  }

  lemma DropIs(x: nat, n: nat)
    ensures x / Pow2(8 * n) == Drop(x, n) <= x
  {
    hide Pow2;
    var d := Pow2(8 * n);
    DivModFacts(x, d);
    MulMono(x / d, 1, d);
  }

  /** The mantissa and exponent lie in different bits, so or-ing them adds. */
  lemma Packed(m: nat, e: nat, negative: bool)
    requires m < SIGN
    ensures BitOr(m, e * EXPONENT) == m + e * EXPONENT
    ensures BitOr(m + e * EXPONENT, SIGN) == m + e * EXPONENT + SIGN
    ensures BitOr(m + e * EXPONENT, 0) == m + e * EXPONENT
  {
    hide BitOr;
    Pow2Is24();
    OrIsPlus(m, e, 24);
    OrBit(m + e * EXPONENT, 23);
    OrZero(m + e * EXPONENT);
    OrComm(m + e * EXPONENT, 0);
  }

  lemma Pow2Is24()
    ensures Pow2(24) == EXPONENT && Pow2(23) == SIGN
  {
    Pow256Small();
    assert Pow2(24) == 2 * Pow2(23);
  }

  lemma {:induction false} OrBit(x: nat, t: nat)
    requires Quotient(x, Pow2(t)) % 2 == 0
    ensures BitOr(x, Pow2(t)) == x + Pow2(t)
  {
    if t == 0 {
      assert Pow2(0) == 1 && Quotient(x, 1) == x;
      OrZero(x / 2);
      OrComm(x / 2, 0);
      assert BitOr(x, 1) == 1 + 2 * BitOr(x / 2, 0);
    } else {
      var p := Pow2(t - 1);
      HalfDiv(x, p);
      OrBit(x / 2, t - 1);
      assert Pow2(t) == 2 * p;
      assert BitOr(x, 2 * p) == x % 2 + 2 * BitOr(x / 2, p) by {
        assert 2 * p % 2 == 0 && 2 * p / 2 == p;
      }
    }
  }

  lemma HalfDiv(x: nat, p: nat)
    requires p > 0
    ensures Quotient(x / 2, p) == Quotient(x, 2 * p)
  {
    var q, r := x / 2 / p, x / 2 % p;
    DivModFacts(x / 2, p);
    MulAssoc(2, p, q);
    DivUnique(x, 2 * p, q, 2 * r + x % 2);
  }

  method GetCompact(t: BaseUint, negative: bool) returns (c: nat)
    requires t.Valid()
    ensures c == Encode(t.Value(), negative) && c < BASE
  {
    hide Pow256, Pow2, Modulus, Leading, BitOr, ByteLen, Represents, BaseUint.Value;
    ghost var x := t.Value();
    t.Bounded();
    var lead, size := LeadingDigits(t);
    // The sign bit must stay clear.
    if lead / SIGN % 2 == 1 {
      lead := lead / 256;
      size := size + 1;
    }
    assert (lead, size) == Parts(x);
    if x > 0 { PartsRange(x); } else { ZeroParts(); }
    Packed(lead, size, negative);
    var sign := if negative && lead % SIGN != 0 then SIGN else 0;
    c := BitOr(lead, size * EXPONENT);
    c := BitOr(c, sign);
  }

  method LeadingDigits(t: BaseUint) returns (lead: nat, size: nat)
    requires t.Valid()
    ensures lead == Leading(t.Value()) < EXPONENT && size == ByteLen(t.Value())
  {
    hide Leading, Pow2, ByteLen, BaseUint.Value;
    ghost var x := t.Value();
    var bits := t.Bits();
    if x > 0 { BitsToBytes(x, bits); } else { ByteLenZero(); }
    size := (bits + 7) / 8;
    LowEnough(x);
    if size <= 3 {
      LeadingSmall(x, size);
      lead := t.GetLow64();
      lead := lead * Pow2(8 * (3 - size));
    } else {
      LeadingLarge(x, size);
      var bn := new BaseUint.Copy(t);
      bn.ShiftRightAssign(8 * (size - 3));
      lead := bn.GetLow64();
    }
  }

  lemma LeadingSmall(x: nat, n: nat)
    requires ByteLen(x) == n <= 3 && x < EXPONENT
    ensures Leading(x) == x * Pow2(8 * (3 - n)) && x % (BASE * BASE) == x
  {
    hide ByteLen, Pow2;
  }

  lemma LeadingLarge(x: nat, n: nat)
    requires ByteLen(x) == n > 3 && Leading(x) < EXPONENT
    ensures Leading(x) == x / Pow2(8 * (n - 3)) && Leading(x) % (BASE * BASE) == Leading(x)
  {
    hide ByteLen, Pow2;
    DropIs(x, n - 3);
  }

  lemma ZeroParts()
    ensures Parts(0) == (0, 0)
  {
    hide Pow256;
  }

  lemma ByteLenZero()
    ensures ByteLen(0) == 0
  {
  }

  /** The leading digits fit the 64 bits they are taken from. */
  lemma LowEnough(x: nat)
    ensures Leading(x) < EXPONENT
    ensures ByteLen(x) <= 3 ==> x < EXPONENT
  {
    hide Pow256, Drop;
    Pow256Small();
    if x > 0 {
      LeadingRange(x);
      ByteLenBounds(x);
      if ByteLen(x) <= 3 { PowMono256(ByteLen(x), 3); }
    }
  }

  lemma PartsRange(x: nat)
    requires 0 < x < Modulus()
    ensures 0x8000 <= Parts(x).0 < SIGN && Parts(x).1 <= 33
  {
    hide Pow256, Leading, ByteLen, Modulus;
    PartsRepresent(x);
    ExponentRange(x, Parts(x).0, Parts(x).1);
  }

  // ---------- the work a block stands for ----------

  /** A proof-of-stake block is recognised by a zero nonce. */
  ghost function Work(bits: nat, nonce: nat): nat {
    var d := Decode(bits);
    if d.negative || d.overflow || d.value == 0 then 0
    else if nonce != 0 then 1
    else Quotient(Modulus(), d.value + 1)
  }

  /** ~target / (target + 1) + 1 computes 2^256 / (target + 1). */
  lemma ComplementForm(t: nat)
    requires t + 1 < Modulus()
    ensures Quotient(Modulus() - 1 - t, t + 1) + 1 == Quotient(Modulus(), t + 1)
  {
    hide Modulus;
    DivAddMultiple(Modulus() - 1 - t, t + 1, 1);
  }

  /** One more than a target that raises no flag still fits. */
  lemma TargetIncrements(c: nat)
    requires !Decode(c).overflow
    ensures Decode(c).value + 1 < Modulus()
  {
    hide Pow256, Modulus, Wrap;
    var m, e := Word(c), Exponent(c);
    ModulusIs();
    Pow256Small();
    MantissaSmall(c);
    if e <= 3 {
      DropIs(Mantissa(c), 3 - e);
      PowMono256(4, 32);
      Pow256Step(3);
    } else if m == 0 {
      WrapIs(0, 0, 0);
      PowMono256(3, 32);
    } else {
      BelowTop(m, e);
      WrapIs(m * Pow256(e - 3), 0, m * Pow256(e - 3));
    }
  }

  lemma BelowTop(m: nat, e: nat)
    requires 4 <= e <= 34 && 0 < m < SIGN
    requires (e == 34 ==> m <= 0xff) && (e == 33 ==> m <= 0xffff)
    ensures m * Pow256(e - 3) + 1 < Pow256(32)
  {
    hide Pow256;
    Pow256Small();
    var p := Pow256(e - 3);
    Pow256Step(e - 4);
    if e == 34 {
      Pow256Add(31, 1);
      MulMono(p, m, 0xff);
    } else if e == 33 {
      Pow256Add(30, 2);
      MulMono(p, m, 0xffff);
    } else {
      Pow256Add(29, 3);
      PowMono256(e - 3, 29);
      MulMono(m, p, Pow256(29));
      MulMono(Pow256(29), m, SIGN);
    }
  }

  method GetBlockProof(bits: nat, nonce: nat) returns (r: BaseUint)
    requires bits < BASE
    ensures r.Valid() && fresh(r) && fresh(r.pn) && r.Value() == Work(bits, nonce)
  {
    hide Decode, Modulus, Wrap, BaseUint.Value;
    var target := new BaseUint.Zero();
    var negative, overflow := SetCompact(target, bits);
    var zero := new BaseUint.Zero();
    var c := target.CompareTo(zero);
    if negative || overflow || c == 0 { return zero; }
    var one := new BaseUint.Zero();
    one.Assign(1);
    if nonce != 0 { return one; }
    TargetIncrements(bits);
    ghost var t := target.Value();
    r := BaseUint.Complement(target);
    WrapIs(t + 1, 0, t + 1);
    target.AddAssign(one);
    var ok := r.DivideAssign(target);
    ComplementForm(t);
    QuotientFits(t);
    WrapIs(r.Value() + 1, 0, r.Value() + 1);
    r.AddAssign(one);
  }

  lemma QuotientFits(t: nat)
    requires 0 < t && t + 1 < Modulus()
    ensures Quotient(Modulus(), t + 1) < Modulus()
  {
    hide Modulus;
    var q := Modulus() / (t + 1);
    DivModFacts(Modulus(), t + 1);
    MulMono(q, 2, t + 1);
  }

  /** A smaller target is at least as much work, and a valid block always adds some. */
  lemma WorkOrder(bits: nat, other: nat)
    requires Work(bits, 0) > 0 && Work(other, 0) > 0
    requires Decode(bits).value <= Decode(other).value
    ensures Work(bits, 0) >= Work(other, 0)
  {
    hide Modulus, Decode;
    var a, b := Decode(bits).value + 1, Decode(other).value + 1;
    var p, q := Modulus() / a, Modulus() / b;
    DivModFacts(Modulus(), a);
    DivModFacts(Modulus(), b);
    if p < q {
      MulMono(a, p + 1, q);
      MulDist(a, p, 1);
      MulMono(q, a, b);
    }
  }

  /** Only a flagged or zero target carries no work. */
  lemma WorkPositive(bits: nat, nonce: nat)
    ensures Work(bits, nonce) == 0
       <==> Decode(bits).negative || Decode(bits).overflow || Decode(bits).value == 0
  {
    hide Modulus, Decode;
    if !Decode(bits).overflow {
      TargetIncrements(bits);
      ComplementForm(Decode(bits).value);
    }
  }
}
