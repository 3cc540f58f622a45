/** Bit-at-a-time access to byte streams, most significant bit first. */
module BitStream {
  import opened Options
  import opened Limbs
  import opened Nonlinear

  // ---------- bits of numbers and bytes ----------

  /** The n low bits of v, highest first. */
  ghost function BitsOf(v: nat, n: nat): (r: seq<bool>)
    ensures |r| == n
  {
    if n == 0 then [] else BitsOf(v / 2, n - 1) + [v % 2 == 1]
  }

  ghost function Falses(n: nat): (r: seq<bool>)
    ensures |r| == n && forall i :: 0 <= i < n ==> !r[i]
  {
    seq(n, _ => false)
  }

  ghost function Trues(n: nat): (r: seq<bool>)
    ensures |r| == n && forall i :: 0 <= i < n ==> r[i]
  {
    seq(n, _ => true)
  }

  ghost predicate AreBytes(s: seq<nat>) {
    forall i :: 0 <= i < |s| ==> s[i] < 256
  }

  ghost function ByteBits(s: seq<nat>): (r: seq<bool>)
    ensures |r| == 8 * |s|
  {
    if s == [] then [] else BitsOf(s[0], 8) + ByteBits(s[1..])
  }

  lemma {:induction false} ByteBitsAppend(s: seq<nat>, t: seq<nat>)
    ensures ByteBits(s + t) == ByteBits(s) + ByteBits(t)
  {
    hide BitsOf;
    if s == [] {
      assert s + t == t;
    } else {
      var a, b, c := BitsOf(s[0], 8), ByteBits(s[1..]), ByteBits(t);
      ByteBitsAppend(s[1..], t);
      assert (s + t)[1..] == s[1..] + t;
      assert a + (b + c) == (a + b) + c;
    }
  }

  lemma ByteBitsOne(b: nat)
    ensures ByteBits([b]) == BitsOf(b, 8)
  {
    hide BitsOf;
    assert [b][1..] == [];
  }

  /** x above y. */
  lemma {:induction false} BitsJoin(x: nat, y: nat, a: nat, b: nat)
    requires y < Pow2(b)
    ensures BitsOf(x * Pow2(b) + y, a + b) == BitsOf(x, a) + BitsOf(y, b)
    decreases b
  {
    if b == 0 {
      assert x * Pow2(0) == x;
    } else {
      var p := Pow2(b - 1);
      BitsJoin(x, y / 2, a, b - 1);
      MulAssoc(2, x, p);
      var v := x * Pow2(b) + y;
      assert v == 2 * (x * p + y / 2) + y % 2;
      assert v / 2 == x * p + y / 2 && v % 2 == y % 2;
    }
  }

  /** Higher bits do not count. */
  lemma {:induction false} BitsAbove(x: nat, k: nat, n: nat)
    ensures Pow2(n) * k >= 0 && BitsOf(x + Pow2(n) * k, n) == BitsOf(x, n)
  {
    MulMono(Pow2(n), 0, k);
    if n > 0 {
      var h := Pow2(n - 1) * k;
      BitsAbove(x / 2, k, n - 1);
      assert Pow2(n) * k == 2 * h by { MulAssoc(2, Pow2(n - 1), k); }
      assert (x + 2 * h) / 2 == x / 2 + h && (x + 2 * h) % 2 == x % 2;
    }
  }

  lemma BitsLow(v: nat, n: nat, m: nat)
    requires n <= m
    ensures v % Pow2(m) >= 0 && BitsOf(v % Pow2(m), n) == BitsOf(v, n)
  {
    hide Pow2, BitsOf;
    var q := Quotient(v, Pow2(m));
    DivModFacts(v, Pow2(m));
    Pow2Add(n, m - n);
    MulAssoc(Pow2(n), Pow2(m - n), q);
    MulMono(q, 0, Pow2(m - n));
    BitsAbove(v % Pow2(m), Pow2(m - n) * q, n);
  }

  lemma {:induction false} BitsInjective(x: nat, y: nat, n: nat)
    requires x < Pow2(n) && y < Pow2(n) && BitsOf(x, n) == BitsOf(y, n)
    ensures x == y
  {
    if n > 0 {
      var a, b := BitsOf(x, n), BitsOf(y, n);
      assert a[..n - 1] == BitsOf(x / 2, n - 1) && b[..n - 1] == BitsOf(y / 2, n - 1);
      assert a[n - 1] == (x % 2 == 1) && b[n - 1] == (y % 2 == 1);
      BitsInjective(x / 2, y / 2, n - 1);
    }
  }

  /** The number that bits stand for. */
  ghost function NumberOf(bits: seq<bool>): nat {
    if bits == [] then 0
    else 2 * NumberOf(bits[..|bits| - 1]) + if bits[|bits| - 1] then 1 else 0
  }

  lemma {:induction false} NumberBits(v: nat, n: nat)
    requires v < Pow2(n)
    ensures NumberOf(BitsOf(v, n)) == v
  {
    if n > 0 {
      NumberBits(v / 2, n - 1);
      assert BitsOf(v, n)[..n - 1] == BitsOf(v / 2, n - 1);
    }
  }

  lemma {:induction false} BitsZero(n: nat)
    ensures BitsOf(0, n) == Falses(n)
  {
    if n > 0 {
      BitsZero(n - 1);
    }
  }

  lemma {:induction false} BitsOnes(m: nat, n: nat)
    requires n <= m
    ensures BitsOf(Pow2(m) - 1, n) == Trues(n)
  {
    hide BitsOf, Pow2;
    if n > 0 {
      BitsOnes(m - 1, n - 1);
      Pow2Step(m - 1);
      BitsOdd(Pow2(m - 1) - 1, n);
    }
  }

  lemma Pow2Step(n: nat)
    ensures Pow2(n + 1) == 2 * Pow2(n)
  {
  }

  lemma BitsOdd(v: nat, n: nat)
    requires n > 0
    ensures BitsOf(2 * v + 1, n) == BitsOf(v, n - 1) + [true]
  {
    assert (2 * v + 1) / 2 == v && (2 * v + 1) % 2 == 1;
  }

  /** The top b of v's n low bits, and the rest. */
  ghost function Top(v: nat, n: nat, b: nat): nat
    requires b <= n
  {
    Quotient(v % Pow2(n), Pow2(n - b))
  }

  lemma TopBits(v: nat, n: nat, b: nat)
    requires b <= n
    ensures Top(v, n, b) < Pow2(b)
    ensures BitsOf(v, n) == BitsOf(Top(v, n, b), b) + BitsOf(v, n - b)
  {
    hide Pow2, BitsOf;
    var d, p := v % Pow2(n), Pow2(n - b);
    DivModFacts(v, Pow2(n));
    DivModFacts(d, p);
    var t, r := Top(v, n, b), d % p;
    assert d == t * p + r;
    Pow2Add(b, n - b);
    if t >= Pow2(b) { MulMono(p, Pow2(b), t); }
    BitsJoin(t, r, b, n - b);
    BitsLow(v, n, n);
    BitsLow(d, n - b, n - b);
    BitsLow(v, n - b, n);
  }

  // ---------- writing ----------

  class BitStreamWriter {
    /** The bytes in the output stream. */
    var out: seq<nat>
    var buffer: nat
    var offset: nat
    /** The bits in the buffer, as a number. */
    ghost var high: nat

    ghost predicate Valid()
      reads this
    {
      offset < 8 && buffer == high * Pow2(8 - offset) && high < Pow2(offset) && AreBytes(out)
    }

    /** Every bit written so far. */
    ghost function Written(): seq<bool>
      reads this
    {
      ByteBits(out) + BitsOf(high, offset)
    }

    constructor (stream: seq<nat>)
      requires AreBytes(stream)
      ensures Valid() && Written() == ByteBits(stream) && offset == 0 && out == stream
    {
      out, buffer, offset, high := stream, 0, 0, 0;
    }

    /** Append the nbits low bits of a 64-bit value; more than 64 bits, or a negative
        number of them, is an error that writes nothing. */
    method Write(data: nat, nbits: int) returns (ok: bool)
      requires Valid() && data < Pow2(64)
      modifies this
      ensures ok <==> 0 <= nbits <= 64
      ensures Valid() && Written() == if ok then old(Written()) + BitsOf(data, nbits) else old(Written())
    {
      hide Pow2, BitsOf, ByteBits, BitOr;
      if nbits < 0 || nbits > 64 { return false; }
      ok := true;
      var n := nbits;
      while n > 0
        invariant Valid() && 0 <= n <= nbits
        invariant Written() + BitsOf(data, n) == old(Written()) + BitsOf(data, nbits)
      {
        var bits := if 8 - offset < n then 8 - offset else n;
        TopBits(data, n, bits);
        PutBits(data, n, bits);
        n := n - bits;
      }
    }

    /** m_buffer |= (data << (64 - n)) >> (64 - 8 + m_offset), then flush if full. */
    method PutBits(data: nat, n: nat, bits: nat)
      requires Valid() && 0 < n <= 64 && bits == if 8 - offset < n then 8 - offset else n
      modifies this
      ensures Valid() && Written() == old(Written()) + BitsOf(Top(data, n, bits), bits)
    {
      hide Pow2, BitsOf, ByteBits, BitOr, Top, Quotient;
      ghost var t := Top(data, n, bits);
      TopBits(data, n, bits);
      Chunk(data, n, offset, bits);
      Joined(high, t, offset, bits);
      buffer := BitOr(buffer, data * Pow2(64 - n) % Pow2(64) / Pow2(56 + offset));
      BitsJoin(high, t, offset, bits);
      high := high * Pow2(bits) + t;
      offset := offset + bits;
      if offset == 8 {
        ByteBitsAppend(out, [buffer]);
        ByteBitsOne(buffer);
        FullByte(high, 8);
        WholeByte(high);
        out := out + [buffer];
        buffer, offset, high := 0, 0, 0;
        NoBuffer(0);
      }
    }

    /** Pad with zero bits to the next byte boundary. */
    method Flush()
      requires Valid()
      modifies this
      ensures Valid() && offset == 0 && buffer == 0
      ensures 0 <= |ByteBits(out)| - |old(Written())| < 8
      ensures ByteBits(out) == Written() == old(Written()) + Falses(|ByteBits(out)| - |old(Written())|)
    {
      hide Pow2, BitsOf, ByteBits;
      if offset == 0 {
        NoBuffer(high);
        return;
      }
      PadBits(high, offset);
      ByteBitsAppend(out, [buffer]);
      ByteBitsOne(buffer);
      Pow2Mono(0, 8 - offset);
      FullByte(high, offset);
      out := out + [buffer];
      buffer, offset, high := 0, 0, 0;
      NoBuffer(0);
    }
  }

  /** Shifting the value to the top and down again leaves its top bits in place. */
  lemma Chunk(data: nat, n: nat, o: nat, b: nat)
    requires 0 < n <= 64 && o < 8 && b == if 8 - o < n then 8 - o else n
    ensures data * Pow2(64 - n) % Pow2(64) / Pow2(56 + o) == Top(data, n, b) * Pow2(8 - o - b)
  {
    hide Pow2;
    var d, t := data % Pow2(n), Top(data, n, b);
    ShiftMod(data, 64 - n, n);
    var p := Pow2(n - b);
    DivModFacts(d, p);
    var r := d % p;
    assert d == p * t + r;
    var up, down, step := Pow2(64 - n), Pow2(56 + o), Pow2(8 - o - b);
    assert d * up == down * (t * step) + r * up by {
      MulDist(up, p * t, r);
      Pow2Add(n - b, 64 - n);
      Pow2Add(56 + o, 8 - o - b);
      Swap4(p, t, up, down, step);
    }
    assert 0 <= r * up < down by {
      if b == n {
        PowZero(r, p);
      } else {
        Pow2Add(n - b, 64 - n);
        MulMono(up, r + 1, p);
        MulDist(up, r, 1);
        MulMono(up, 0, r);
      }
    }
    DivUnique(d * up, down, t * step, r * up);
  }

  lemma Swap4(p: int, t: int, up: int, down: int, step: int)
    requires p * up == down * step
    ensures (p * t) * up == down * (t * step)
  {
    MulAssoc(t, p, up);
    MulAssoc(t, down, step);
    MulAssoc(down, t, step);
  }

  lemma PowZero(r: nat, p: nat)
    requires p == Pow2(0) && r < p
    ensures r == 0
  {
  }

  /** The bits shifted out of the top do not come back. */
  lemma ShiftMod(x: nat, s: nat, n: nat)
    ensures x * Pow2(s) % Pow2(s + n) == x % Pow2(n) * Pow2(s)
  {
    hide Pow2;
    var q, r := x / Pow2(n), x % Pow2(n);
    DivModFacts(x, Pow2(n));
    Pow2Add(s, n);
    MulDist(Pow2(s), Pow2(n) * q, r);
    MulAssoc(Pow2(s), Pow2(n), q);
    MulMono(Pow2(s), r + 1, Pow2(n));
    MulDist(Pow2(s), r, 1);
    MulMono(Pow2(s), 0, r);
    DivUnique(x * Pow2(s), Pow2(s + n), q, r * Pow2(s));
  }

  lemma Joined(high: nat, t: nat, o: nat, b: nat)
    requires o + b <= 8 && high < Pow2(o) && t < Pow2(b)
    ensures 0 <= high * Pow2(b) + t < Pow2(o + b)
    ensures 0 <= t * Pow2(8 - o - b) && 0 <= high * Pow2(8 - o)
    ensures BitOr(high * Pow2(8 - o), t * Pow2(8 - o - b)) == (high * Pow2(b) + t) * Pow2(8 - o - b)
  {
    hide Pow2, BitOr;
    var k := Pow2(8 - o - b);
    Pow2Add(b, 8 - o - b);
    Pow2Add(o, b);
    MulMono(Pow2(b), high + 1, Pow2(o));
    MulDist(Pow2(b), high, 1);
    MulMono(Pow2(b), 0, high);
    MulMono(k, 0, t);
    MulMono(Pow2(8 - o), 0, high);
    assert t * k < Pow2(8 - o) by {
      MulMono(k, t + 1, Pow2(b));
      MulDist(k, t, 1);
    }
    OrIsPlus(t * k, high, 8 - o);
    OrComm(high * Pow2(8 - o), t * k);
    MulDist(k, high * Pow2(b), t);
    MulAssoc(high, Pow2(b), k);
  }

  lemma WholeByte(high: nat)
    ensures high * Pow2(8 - 8) == high
  {
  }

  lemma NoBuffer(high: nat)
    requires high < Pow2(0)
    ensures high == 0 && 0 * Pow2(8) == 0
  {
  }

  lemma FullByte(high: nat, o: nat)
    requires o <= 8 && high < Pow2(o)
    ensures 0 <= high * Pow2(8 - o) < 256
  {
    Pow2Add(o, 8 - o);
    MulMono(Pow2(8 - o), high, Pow2(o) - 1);
    MulMono(high, 0, Pow2(8 - o));
    MulDist(Pow2(8 - o), Pow2(o) - 1, 1);
    assert Pow2(8) == 256;
  }

  lemma PadBits(high: nat, o: nat)
    requires o <= 8
    ensures high * Pow2(8 - o) >= 0 && BitsOf(high * Pow2(8 - o), 8) == BitsOf(high, o) + Falses(8 - o)
  {
    hide Pow2, BitsOf;
    MulMono(high, 0, Pow2(8 - o));
    BitsJoin(high, 0, o, 8 - o);
    BitsZero(8 - o);
  }

  // ---------- reading ----------

  class BitStreamReader {
    const data: seq<nat>
    var pos: nat
    var buffer: nat
    var offset: nat

    ghost predicate Valid()
      reads this
    {
      AreBytes(data) && pos <= |data| && offset <= 8 && buffer < 256
    }

    /** Every bit not read yet. */
    ghost function Remaining(): seq<bool>
      requires Valid()
      reads this
    {
      BitsOf(buffer, 8 - offset) + ByteBits(data[pos..])
    }

    constructor (stream: seq<nat>, start: nat)
      requires AreBytes(stream) && start <= |stream|
      ensures Valid() && Remaining() == ByteBits(stream[start..]) && data == stream && pos == start && offset == 8
    {
      data, pos, buffer, offset := stream, start, 0, 8;
    }

    /** Take nbits bits as a number. Running out of data is an error, and so is a
        number of bits outside 0 to 64, which takes nothing. */
    method Read(nbits: int) returns (r: Option<nat>)
      requires Valid() && offset > 0
      modifies this
      ensures Valid() && offset > 0 && (r.Some? <==> 0 <= nbits <= 64 && |old(Remaining())| >= nbits)
      ensures nbits < 0 || nbits > 64 ==> Remaining() == old(Remaining())
      ensures r.Some? ==> r.value < Pow2(nbits) && old(Remaining()) == BitsOf(r.value, nbits) + Remaining()
    {
      hide Pow2, BitsOf, ByteBits, BitOr;
      if nbits < 0 || nbits > 64 { return None; }
      var v: nat := 0;
      var n: int := nbits;
      while n > 0
        invariant Valid() && offset > 0 && 0 <= n <= nbits && v < Pow2(nbits - n)
        invariant old(Remaining()) == BitsOf(v, nbits - n) + Remaining()
      {
        if offset == 8 {
          if pos == |data| { return None; }
          NextByte();
        }
        var bits := if 8 - offset < n then 8 - offset else n;
        v := TakeBits(v, nbits - n, bits);
        n := n - bits;
      }
      return Some(v);
    }

    method NextByte()
      requires Valid() && offset == 8 && pos < |data|
      modifies this
      ensures Valid() && offset == 0 && Remaining() == old(Remaining())
    {
      hide BitsOf;
      assert data[pos..][1..] == data[pos + 1..];
      buffer := data[pos];
      pos := pos + 1;
      offset := 0;
    }

    /** v <<= bits; v |= uint8_t(m_buffer << m_offset) >> (8 - bits). */
    method TakeBits(v: nat, k: nat, bits: nat) returns (w: nat)
      requires Valid() && v < Pow2(k) && 0 < bits <= 8 - offset && k + bits <= 64
      modifies this
      ensures Valid() && offset == old(offset) + bits && w < Pow2(k + bits)
      ensures BitsOf(v, k) + old(Remaining()) == BitsOf(w, k + bits) + Remaining()
    {
      hide Pow2, BitsOf, ByteBits, BitOr, Top, Quotient;
      ghost var t := Top(buffer, 8 - offset, bits);
      TopBits(buffer, 8 - offset, bits);
      LowChunk(buffer, offset, bits);
      Pow2Is8();
      OrIsPlus(t, v, bits);
      OrComm(v * Pow2(bits), t);
      Room(v, t, k, bits);
      BitsJoin(v, t, k, bits);
      w := BitOr(v * Pow2(bits), buffer * Pow2(offset) % 256 / Pow2(8 - bits));
      offset := offset + bits;
    }
  }

  lemma LowChunk(buffer: nat, o: nat, b: nat)
    requires o <= 8 && 0 < b <= 8 - o
    ensures buffer * Pow2(o) % Pow2(8) / Pow2(8 - b) == Top(buffer, 8 - o, b)
  {
    hide Pow2;
    var d, p, u := buffer % Pow2(8 - o), Pow2(8 - o - b), Pow2(o);
    DivModFacts(buffer, Pow2(8 - o));
    assert buffer * u % Pow2(8) == d * u by { ShiftMod(buffer, o, 8 - o); }
    assert Pow2(8 - b) == p * u by { Pow2Add(8 - o - b, o); }
    DivScaled(d, p, u);
  }

  lemma DivScaled(d: nat, p: nat, u: nat)
    requires p > 0 && u > 0
    ensures p * u > 0 && d * u / (p * u) == d / p
  {
    MulMono(u, 1, p);
    DivModFacts(d, p);
    var t, r := d / p, d % p;
    MulDist(u, p * t, r);
    MulAssoc(t, p, u);
    MulMono(u, r + 1, p);
    MulDist(u, r, 1);
    MulMono(u, 0, r);
    DivUnique(d * u, p * u, t, r * u);
  }

  lemma Pow2Is8()
    ensures Pow2(8) == 256
  {
  }

  lemma Room(v: nat, t: nat, k: nat, b: nat)
    requires v < Pow2(k) && t < Pow2(b)
    ensures 0 <= v * Pow2(b) && v * Pow2(b) + t < Pow2(k + b)
  {
    hide Pow2;
    Pow2Add(k, b);
    MulMono(Pow2(b), v + 1, Pow2(k));
    MulDist(Pow2(b), v, 1);
    MulMono(Pow2(b), 0, v);
  }
}
