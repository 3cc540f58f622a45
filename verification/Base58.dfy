/** Base58: byte strings as text, by long division in a digit buffer. */
module Base58 {
  import opened Options
  import opened Nonlinear
  import opened Radix

  // ---------- the alphabet ----------

  /** Digit d of "123456789ABCDEFGHJKLMNPQRSTUVWXYZabcdefghijkmnopqrstuvwxyz". */
  function Symbol(d: nat): char
    requires d < 58
  {
    if d < 9 then '1' + d as char
    else if d < 17 then 'A' + (d - 9) as char
    else if d < 22 then 'J' + (d - 17) as char
    else if d < 33 then 'P' + (d - 22) as char
    else if d < 44 then 'a' + (d - 33) as char
    else 'm' + (d - 44) as char
  }

  /** The digit a character stands for, or -1. */
  function Index(c: char): int {
    if '1' <= c <= '9' then c as int - '1' as int
    else if 'A' <= c <= 'H' then c as int - 'A' as int + 9
    else if 'J' <= c <= 'N' then c as int - 'J' as int + 17
    else if 'P' <= c <= 'Z' then c as int - 'P' as int + 22
    else if 'a' <= c <= 'k' then c as int - 'a' as int + 33
    else if 'm' <= c <= 'z' then c as int - 'm' as int + 44
    else -1
  }

  predicate IsSpace(c: char) {
    c == ' ' || c == '\U{0C}' || c == '\n' || c == '\r' || c == '\t' || c == '\U{0B}'
  }

  lemma SymbolIndex(d: nat)
    requires d < 58
    ensures Index(Symbol(d)) == d && !IsSpace(Symbol(d)) && Symbol(d) != '\0'
  {
  }

  lemma IndexSymbol(c: char)
    requires Index(c) >= 0
    ensures Index(c) < 58 && Symbol(Index(c)) == c
  {
  }

  ghost predicate InAlphabet(s: string) {
    forall i :: 0 <= i < |s| ==> Index(s[i]) >= 0
  }

  function Symbols(ds: seq<nat>): (r: string)
    requires forall i :: 0 <= i < |ds| ==> ds[i] < 58
    ensures |r| == |ds|
  {
    seq(|ds|, i requires 0 <= i < |ds| => Symbol(ds[i]))
  }

  ghost function Indices(s: string): (r: seq<nat>)
    requires InAlphabet(s)
    ensures |r| == |s| && AreDigits(r, 58)
  {
    seq(|s|, i requires 0 <= i < |s| => Index(s[i]))
  }

  // ---------- what the codec computes ----------

  ghost function Encoded(bytes: seq<nat>): (r: string)
    requires AreDigits(bytes, 256)
  {
    ConvertBack(bytes, 256, 58);
    Symbols(Convert(bytes, 256, 58))
  }

  function DropSpaces(s: string): (r: string)
    ensures |r| <= |s| && r == s[|s| - |r|..]
  {
    if s != [] && IsSpace(s[0]) then DropSpaces(s[1..]) else s
  }

  function DropTrailing(s: string): (r: string)
    ensures r <= s
  {
    if s != [] && IsSpace(s[|s| - 1]) then DropTrailing(s[..|s| - 1]) else s
  }

  function Trim(s: string): string {
    DropTrailing(DropSpaces(s))
  }

  ghost function Decoded(s: string): Option<seq<nat>> {
    if '\0' in s || !InAlphabet(Trim(s)) then None
    else Some(Convert(Indices(Trim(s)), 58, 256))
  }

  // ---------- round trips ----------

  lemma SymbolsIndices(ds: seq<nat>)
    requires AreDigits(ds, 58)
    ensures InAlphabet(Symbols(ds)) && Indices(Symbols(ds)) == ds
    ensures '\0' !in Symbols(ds) && Trim(Symbols(ds)) == Symbols(ds)
  {
    hide Symbol, Index, IsSpace;
    var s := Symbols(ds);
    forall i | 0 <= i < |ds|
      ensures Index(s[i]) == ds[i] && s[i] != '\0' && !IsSpace(s[i])
    {
      SymbolIndex(ds[i]);
    }
  }

  lemma IndicesSymbols(s: string)
    requires InAlphabet(s)
    ensures Symbols(Indices(s)) == s
  {
    hide Symbol, Index;
    forall i | 0 <= i < |s|
      ensures Index(s[i]) < 58 && Symbol(Index(s[i])) == s[i]
    {
      IndexSymbol(s[i]);
    }
  }

  lemma DecodeEncode(bytes: seq<nat>)
    requires AreDigits(bytes, 256)
    ensures Decoded(Encoded(bytes)) == Some(bytes)
  {
    hide Convert, Trim, Symbols, InAlphabet;
    ConvertBack(bytes, 256, 58);
    SymbolsIndices(Convert(bytes, 256, 58));
  }

  /** Apart from spaces around it, a text decodes to a byte string exactly when
      it is the encoding of that byte string. */
  lemma DecodeIff(s: string, bytes: seq<nat>)
    requires AreDigits(bytes, 256)
    ensures Decoded(s) == Some(bytes) <==> '\0' !in s && Trim(s) == Encoded(bytes)
  {
    hide Convert, Trim, Symbols, InAlphabet;
    if '\0' !in s && Trim(s) == Encoded(bytes) {
      ConvertBack(bytes, 256, 58);
      SymbolsIndices(Convert(bytes, 256, 58));
    } else if Decoded(s) == Some(bytes) {
      ConvertBack(Indices(Trim(s)), 58, 256);
      IndicesSymbols(Trim(s));
    }
  }

  /** Encoding what was decoded restores a text that is all alphabet. */
  lemma EncodeDecode(s: string)
    requires InAlphabet(s)
    ensures Decoded(s).Some? && AreDigits(Decoded(s).value, 256) && Encoded(Decoded(s).value) == s
  {
    hide Convert, Trim, Symbols;
    IndicesSymbols(s);
    SymbolsIndices(Indices(s));
    ConvertBack(Indices(s), 58, 256);
  }

  // ---------- buffer sizes ----------

  lemma ExpSmall(b: nat)
    ensures Exp(b, 1) == b && Exp(b, 2) == b * b
  {
  }

  lemma ByteSymbols()
    ensures Exp(256, 8) <= Exp(58, 11)
  {
    hide Exp;
    ExpSmall(58);
    ExpAdd(58, 2, 2);
    ExpAdd(58, 4, 4);
    ExpAdd(58, 8, 2);
    ExpAdd(58, 10, 1);
    ExpSmall(256);
    ExpAdd(256, 2, 2);
    ExpAdd(256, 4, 4);
  }

  lemma SymbolBytes()
    ensures Exp(58, 71) <= Exp(256, 52)
  {
    hide Exp;
    ExpSmall(58);
    ExpAdd(58, 2, 2);
    ExpAdd(58, 4, 4);
    ExpAdd(58, 8, 8);
    ExpAdd(58, 16, 16);
    ExpAdd(58, 32, 32);
    ExpAdd(58, 64, 4);
    ExpAdd(58, 68, 2);
    ExpAdd(58, 70, 1);
    ExpSmall(256);
    ExpAdd(256, 2, 2);
    ExpAdd(256, 4, 4);
    ExpAdd(256, 8, 8);
    ExpAdd(256, 16, 16);
    ExpAdd(256, 32, 16);
    ExpAdd(256, 48, 4);
  }

  /** If p digits of base c outweigh q of base b, then so do n * q / p. */
  lemma RatioFits(b: nat, q: nat, c: nat, p: nat, n: nat, size: nat)
    requires b > 0 && c > 0 && p > 0 && q > 0
    requires Exp(b, q) <= Exp(c, p) && n * p <= size * q
    ensures Exp(b, n) <= Exp(c, size)
  {
    hide Exp;
    // (b^n)^q <= c^(n * p) <= c^(size * q) == (c^size)^q
    RatioBelow(b, q, c, p, n);
    RatioAbove(c, n * p, size, q);
    BaseCancel(Exp(b, n), Exp(c, size), q);
  }

  lemma RatioBelow(b: nat, q: nat, c: nat, p: nat, n: nat)
    requires Exp(b, q) <= Exp(c, p)
    ensures Exp(Exp(b, n), q) <= Exp(c, n * p)
  {
    hide Exp;
    ExpFlip(b, n, q);
    BaseMono(Exp(b, q), Exp(c, p), n);
    ExpFlip(c, p, n);
    ExpMul(c, n, p);
  }

  lemma RatioAbove(c: nat, m: nat, size: nat, q: nat)
    requires c > 0 && m <= size * q
    ensures Exp(c, m) <= Exp(Exp(c, size), q)
  {
    hide Exp;
    ExpMul(c, size, q);
    ExpMono(c, m, size * q);
  }

  lemma ExpFlip(b: nat, m: nat, n: nat)
    ensures Exp(Exp(b, m), n) == Exp(Exp(b, n), m)
  {
    ExpMul(b, m, n);
    ExpMul(b, n, m);
    assert m * n == n * m;
  }

  /** The encoder's buffer holds every input of its length. */
  lemma EncodeFits(n: nat)
    ensures Exp(256, n) <= Exp(58, n * 138 / 100 + 1)
  {
    hide Exp;
    ByteSymbols();
    RatioFits(256, 8, 58, 11, n, n * 138 / 100 + 1);
  }

  /** The decoder's buffer holds every text of its length. */
  lemma DecodeFits(n: nat)
    ensures Exp(58, n) <= Exp(256, n * 733 / 1000 + 1)
  {
    hide Exp;
    SymbolBytes();
    RatioFits(58, 71, 256, 52, n, n * 733 / 1000 + 1);
  }

  // ---------- the operations ----------

  /** The buffer's last `length` digits are in use; the rest are zero. */
  ghost predicate Holds(buf: array<nat>, length: nat, base: nat)
    reads buf
  {
    && length <= buf.Length && AreDigits(buf[..], base)
    && forall i :: 0 <= i < buf.Length - length ==> buf[i] == 0
  }

  /** buf = buf * from + carry, in place, from the last digit forward. */
  method Absorb(buf: array<nat>, length: nat, base: nat, from: nat, digit: nat) returns (newLength: nat)
    requires base > 1 && Holds(buf, length, base)
    requires Value(buf[..], base) * from + digit < Exp(base, buf.Length)
    modifies buf
    ensures Holds(buf, newLength, base)
    ensures Value(buf[..], base) == Value(old(buf[..]), base) * from + digit
  {
    hide Value, Exp;
    var carry := digit;
    var i, n := 0, buf.Length;
    ghost var was := buf[..];
    EmptyValue(base);
    assert buf[n..] == [] && was[n..] == [];
    while (carry != 0 || i < length) && i < n
      invariant 0 <= i <= n && carry >= 0 && AreDigits(buf[..], base)
      invariant buf[..n - i] == was[..n - i]
      invariant Value(buf[n - i..], base) + carry * Exp(base, i) == Value(was[n - i..], base) * from + digit
      decreases n - i
    {
      var j := n - 1 - i;
      ghost var tail := buf[n - i..];
      MulMono(from, 0, buf[j]);
      carry := carry + from * buf[j];
      ghost var total := carry;
      QuotRem(carry, base);
      buf[j] := Rem(carry, base);
      carry := Quot(carry, base);
      assert buf[j..] == [buf[j]] + tail && was[j..] == [was[j]] + was[n - i..];
      AbsorbStep(buf[j], tail, was[j], was[n - i..], base, from, total - from * was[j], carry, digit);
      i := i + 1;
    }
    assert buf[..] == buf[..n - i] + buf[n - i..] && was == was[..n - i] + was[n - i..];
    if i == n {
      NoCarry(carry, Value(buf[..], base), Exp(base, n));
    }
    assert carry == 0;
    assert was[..n - i] == Zeros(n - i);
    ValueSkip(buf[..], n - i, base);
    ValueSkip(was, n - i, base);
    newLength := i;
  }

  lemma EmptyValue(base: nat)
    ensures Value([], base) == 0 && Exp(base, 0) == 1
  {
  }

  lemma NoCarry(carry: nat, low: nat, top: nat)
    requires low + carry * top < top
    ensures carry == 0
  {
    if carry > 0 { MulMono(top, 1, carry); }
  }

  /** One digit of the carry loop. */
  lemma AbsorbStep(d: nat, tail: seq<nat>, w: nat, rest: seq<nat>, base: nat, from: nat,
                   carry: nat, more: nat, digit: nat)
    requires |tail| == |rest| && d + more * base == carry + from * w
    requires Value(tail, base) + carry * Exp(base, |tail|) == Value(rest, base) * from + digit
    ensures Value([d] + tail, base) + more * Exp(base, |tail| + 1) == Value([w] + rest, base) * from + digit
  {
    hide Value;
    var e := Exp(base, |tail|);
    ValueCons(d, tail, base);
    ValueCons(w, rest, base);
    MulDist(from, w * e, Value(rest, base));
    MulAssoc(from, w, e);
    MulDist(e, d, more * base);
    MulDist(e, carry, from * w);
    MulAssoc(more, base, e);
  }

  lemma ValueCons(d: nat, tail: seq<nat>, base: nat)
    ensures Value([d] + tail, base) == d * Exp(base, |tail|) + Value(tail, base)
  {
    ValueAppend([d], tail, base);
    assert [d][..0] == [];
    assert Value([d], base) == d;
  }

  /** The digits in use without leading zeros. */
  method Significant(buf: array<nat>, length: nat, base: nat) returns (ds: seq<nat>)
    requires base > 1 && Holds(buf, length, base)
    ensures ds == Digits(Value(buf[..], base), base)
  {
    hide Value, Digits;
    var it := buf.Length - length;
    while it < buf.Length && buf[it] == 0
      invariant buf.Length - length <= it <= buf.Length
      invariant forall i :: 0 <= i < it ==> buf[i] == 0
    {
      it := it + 1;
    }
    ds := buf[it..];
    assert buf[..][..it] == Zeros(it) && buf[..][it..] == ds;
    ValueSkip(buf[..], it, base);
    ValueDigits(ds, base);
  }

  /** The running value never outgrows the buffer. */
  lemma RoomFor(ds: seq<nat>, k: nat, b: nat, c: nat, size: nat)
    requires b > 0 && k < |ds| && AreDigits(ds, b) && Exp(b, |ds|) <= Exp(c, size)
    ensures Value(ds[..k + 1], b) == Value(ds[..k], b) * b + ds[k] < Exp(c, size)
  {
    hide Value, Exp;
    assert ds[..k + 1] == ds[..k] + [ds[k]];
    ValueSnoc(ds[..k], ds[k], b);
    ValueBound(ds[..k + 1], b);
    ExpMono(b, k + 1, |ds|);
  }

  method EncodeBase58(bytes: seq<nat>) returns (r: string)
    requires AreDigits(bytes, 256)
    ensures r == Encoded(bytes)
  {
    hide Value, Digits, Exp, LeadingZeros;
    var zeroes := 0;
    while zeroes < |bytes| && bytes[zeroes] == 0
      invariant zeroes <= |bytes| && forall i :: 0 <= i < zeroes ==> bytes[i] == 0
    {
      zeroes := zeroes + 1;
    }
    var rest := bytes[zeroes..];
    var size := |rest| * 138 / 100 + 1;
    EncodeFits(|rest|);
    var b58 := new nat[size](_ => 0);
    assert b58[..] == Zeros(size);
    ValueZeros(size, 58);
    EmptyValue(256);
    var length := 0;
    for k := 0 to |rest|
      invariant Holds(b58, length, 58)
      invariant Value(b58[..], 58) == Value(rest[..k], 256)
    {
      RoomFor(rest, k, 256, 58, size);
      length := Absorb(b58, length, 58, 256, rest[k]);
    }
    assert rest[..|rest|] == rest;
    var ds := Significant(b58, length, 58);
    assert bytes == Zeros(zeroes) + rest;
    LeadingZerosOf(zeroes, rest);
    ValueSkip(bytes, zeroes, 256);
    ConvertBack(bytes, 256, 58);
    r := Text(zeroes, ds);
  }

  method Text(zeroes: nat, ds: seq<nat>) returns (r: string)
    requires AreDigits(Zeros(zeroes) + ds, 58)
    ensures r == Symbols(Zeros(zeroes) + ds)
  {
    hide Symbol;
    r := seq(zeroes, _ => '1');
    SymbolZero();
    assert forall i :: 0 <= i < |ds| ==> (Zeros(zeroes) + ds)[zeroes + i] == ds[i];
    for k := 0 to |ds|
      invariant |r| == zeroes + k && forall i :: 0 <= i < |r| ==> r[i] == Symbol((Zeros(zeroes) + ds)[i])
    {
      r := r + [Symbol(ds[k])];
    }
  }

  lemma SymbolZero()
    ensures Symbol(0) == '1' && forall c :: Index(c) == 0 <==> c == '1'
  {
  }

  // ---------- spaces around a text ----------

  /** The leading spaces of s end at p. */
  ghost predicate StartsAt(s: string, p: nat) {
    p <= |s| && (forall i :: 0 <= i < p ==> IsSpace(s[i])) && (p < |s| ==> !IsSpace(s[p]))
  }

  lemma {:induction false} DropSpacesIs(s: string, p: nat)
    requires StartsAt(s, p)
    ensures DropSpaces(s) == s[p..]
  {
    if p > 0 {
      DropSpacesIs(s[1..], p - 1);
      assert s[1..][p - 1..] == s[p..];
    }
  }

  lemma {:induction false} DropTrailingKeeps(s: string, j: nat)
    requires j < |s| && !IsSpace(s[j])
    ensures |DropTrailing(s)| > j
  {
    if j < |s| - 1 && IsSpace(s[|s| - 1]) { DropTrailingKeeps(s[..|s| - 1], j); }
  }

  lemma {:induction false} DropTrailingIs(s: string, k: nat)
    requires k <= |s| && (forall i :: k <= i < |s| ==> IsSpace(s[i])) && (k > 0 ==> !IsSpace(s[k - 1]))
    ensures DropTrailing(s) == s[..k]
  {
    if k < |s| {
      DropTrailingIs(s[..|s| - 1], k);
      assert s[..|s| - 1][..k] == s[..k];
    }
  }

  /** Up to its last other character, a text keeps everything after its leading spaces. */
  lemma TrimKeeps(s: string, p: nat, i: nat, j: nat)
    requires StartsAt(s, p) && p <= i <= j < |s| && !IsSpace(s[j]) && Index(s[i]) == -1
    ensures !InAlphabet(Trim(s))
  {
    hide IsSpace, Index, StartsAt, DropSpaces, DropTrailing;
    DropSpacesIs(s, p);
    DropTrailingKeeps(s[p..], j - p);
    assert Trim(s)[i - p] == s[i];
  }

  lemma TrimIs(s: string, p: nat, k: nat)
    requires StartsAt(s, p) && p <= k <= |s|
    requires forall i :: k <= i < |s| ==> IsSpace(s[i])
    requires forall i :: p <= i < k ==> !IsSpace(s[i])
    ensures Trim(s) == s[p..k]
  {
    hide IsSpace, StartsAt, DropSpaces, DropTrailing;
    DropSpacesIs(s, p);
    DropTrailingIs(s[p..], k - p);
    assert s[p..][..k - p] == s[p..k];
  }

  lemma SpaceInvalid(c: char)
    requires IsSpace(c)
    ensures Index(c) == -1
  {
  }

  method SkipSpaces(s: string, from: nat) returns (p: nat)
    requires from <= |s|
    ensures from <= p <= |s| && (forall i :: from <= i < p ==> IsSpace(s[i])) && (p < |s| ==> !IsSpace(s[p]))
  {
    p := from;
    while p < |s| && IsSpace(s[p])
      invariant from <= p <= |s| && forall i :: from <= i < p ==> IsSpace(s[i])
    {
      p := p + 1;
    }
  }

  method SkipOnes(s: string, from: nat) returns (q: nat)
    requires from <= |s|
    ensures from <= q <= |s| && (forall i :: from <= i < q ==> s[i] == '1') && (q < |s| ==> s[q] != '1')
  {
    q := from;
    while q < |s| && s[q] == '1'
      invariant from <= q <= |s| && forall i :: from <= i < q ==> s[i] == '1'
    {
      q := q + 1;
    }
  }

  lemma IndicesSnoc(s: string, q: nat, k: nat)
    requires q <= k < |s| && InAlphabet(s[q..k]) && Index(s[k]) >= 0
    ensures InAlphabet(s[q..k + 1]) && Indices(s[q..k + 1]) == Indices(s[q..k]) + [Index(s[k]) as nat]
  {
    hide Index;
    assert s[q..k + 1] == s[q..k] + [s[k]];
  }

  /** Take digits up to a space or the end, or stop at a character that is neither. */
  method Digest(s: string, q: nat) returns (ok: bool, k: nat, ds: seq<nat>)
    requires q <= |s|
    ensures q <= k <= |s| && forall i :: q <= i < k ==> !IsSpace(s[i])
    ensures !ok ==> k < |s| && !IsSpace(s[k]) && Index(s[k]) == -1
    ensures ok ==> (k < |s| ==> IsSpace(s[k])) && InAlphabet(s[q..k])
                   && ds == Digits(Value(Indices(s[q..k]), 58), 256)
  {
    hide Index, IsSpace, InAlphabet, Value, Digits, Exp, Indices;
    var size := (|s| - q) * 733 / 1000 + 1;
    DecodeFits(|s| - q);
    var b256 := new nat[size](_ => 0);
    assert b256[..] == Zeros(size);
    ValueZeros(size, 256);
    EmptyText(s, q);
    var length := 0;
    k := q;
    while k < |s| && !IsSpace(s[k])
      invariant q <= k <= |s| && (forall i :: q <= i < k ==> !IsSpace(s[i])) && InAlphabet(s[q..k])
      invariant fresh(b256) && Holds(b256, length, 256)
      invariant Value(b256[..], 256) == Value(Indices(s[q..k]), 58)
    {
      var carry := Index(s[k]);
      if carry == -1 { return false, k, []; }
      IndexRange(s[k]);
      ghost var seen := Indices(s[q..k]);
      IndicesSnoc(s, q, k);
      assert (seen + [carry])[..k - q] == seen && (seen + [carry])[..k - q + 1] == seen + [carry];
      ExpMono(58, k + 1 - q, |s| - q);
      RoomFor(seen + [carry], k - q, 58, 256, size);
      length := Absorb(b256, length, 256, 58, carry);
      k := k + 1;
    }
    ds := Significant(b256, length, 256);
    ok := true;
  }

  lemma EmptyText(s: string, q: nat)
    requires q <= |s|
    ensures InAlphabet(s[q..q]) && Value(Indices(s[q..q]), 58) == 0
  {
  }

  lemma IndexRange(c: char)
    ensures Index(c) == -1 || 0 <= Index(c) < 58
  {
  }

  /** Leading '1's are the leading zeros of the number. */
  lemma OnesAreZeros(s: string, p: nat, q: nat, k: nat)
    requires p <= q <= k <= |s| && InAlphabet(s[q..k])
    requires (forall i :: p <= i < q ==> s[i] == '1') && (q < k ==> s[q] != '1')
    ensures InAlphabet(s[p..k])
    ensures Convert(Indices(s[p..k]), 58, 256) == Zeros(q - p) + Digits(Value(Indices(s[q..k]), 58), 256)
  {
    hide Index, Value, Digits, LeadingZeros;
    SymbolZero();
    var all := s[p..k];
    forall i | 0 <= i < |all|
      ensures Index(all[i]) >= 0 && (i < q - p ==> Index(all[i]) == 0)
    {
      if p + i >= q { assert all[i] == s[q..k][p + i - q]; }
    }
    var n := Indices(all);
    assert n == Zeros(q - p) + Indices(s[q..k]);
    LeadingZerosOf(q - p, Indices(s[q..k]));
    assert n[q - p..] == Indices(s[q..k]);
    ValueSkip(n, q - p, 58);
  }

  method DecodeBase58(s: string) returns (r: Option<seq<nat>>)
    ensures r == Decoded(s)
  {
    hide Index, IsSpace, Trim, InAlphabet, Value, Digits, Indices, Convert;
    if '\0' in s { return None; }
    var p := SkipSpaces(s, 0);
    var q := SkipOnes(s, p);
    var ok, k, ds := Digest(s, q);
    if !ok {
      TrimKeeps(s, p, k, k);
      return None;
    }
    var m := SkipSpaces(s, k);
    if m != |s| {
      SpaceInvalid(s[k]);
      TrimKeeps(s, p, k, m);
      return None;
    }
    OneIsNoSpace();
    TrimIs(s, p, k);
    OnesAreZeros(s, p, q, k);
    r := Some(Zeros(q - p) + ds);
  }

  lemma OneIsNoSpace()
    ensures !IsSpace('1')
  {
  }

  // ---------- with a checksum ----------

  /** The first four bytes of a hash of the payload. */
  type Check = seq<nat> -> seq<nat>

  ghost predicate Sound(check: Check, bytes: seq<nat>) {
    |check(bytes)| == 4 && AreDigits(check(bytes), 256)
  }

  method EncodeBase58Check(bytes: seq<nat>, check: Check) returns (r: string)
    requires AreDigits(bytes, 256) && Sound(check, bytes)
    ensures r == Encoded(bytes + check(bytes))
  {
    r := EncodeBase58(bytes + check(bytes));
  }

  method DecodeBase58Check(s: string, check: Check) returns (r: Option<seq<nat>>)
    ensures r == CheckedPayload(s, check)
  {
    var v := DecodeBase58(s);
    if v.None? || |v.value| < 4 { return None; }
    var n := |v.value| - 4;
    if check(v.value[..n]) != v.value[n..] { return None; }
    return Some(v.value[..n]);
  }

  ghost function CheckedPayload(s: string, check: Check): Option<seq<nat>> {
    var v := Decoded(s);
    if v.None? || |v.value| < 4 || check(v.value[..|v.value| - 4]) != v.value[|v.value| - 4..] then None
    else Some(v.value[..|v.value| - 4])
  }

  /** The payload accepted is the one whose checked encoding the text is. */
  lemma CheckIff(s: string, check: Check, bytes: seq<nat>)
    requires AreDigits(bytes, 256) && Sound(check, bytes)
    ensures CheckedPayload(s, check) == Some(bytes)
       <==> '\0' !in s && Trim(s) == Encoded(bytes + check(bytes))
  {
    hide Decoded, Encoded, Trim;
    var whole := bytes + check(bytes);
    assert whole[..|whole| - 4] == bytes && whole[|whole| - 4..] == check(bytes);
    DecodeIff(s, whole);
    var v := Decoded(s);
    if v.Some? && |v.value| >= 4 {
      assert v.value == v.value[..|v.value| - 4] + v.value[|v.value| - 4..];
    }
  }
}
