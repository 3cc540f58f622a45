/** Counts in serialised data: one byte, or a marker and two, four or eight. */
module Serialize {
  import opened Options

  const MAX_SIZE: nat := 0x0200_0000

  function LittleEndian(n: nat, k: nat): (r: seq<nat>)
    ensures |r| == k && forall i :: 0 <= i < k ==> r[i] < 256
  {
    if k == 0 then [] else [n % 256] + LittleEndian(n / 256, k - 1)
  }

  function FromLittleEndian(s: seq<nat>): nat {
    if s == [] then 0 else s[0] + 256 * FromLittleEndian(s[1..])
  }

  function CompactSize(n: nat): (r: seq<nat>) {
    if n < 253 then [n]
    else if n <= 0xffff then [253] + LittleEndian(n, 2)
    else if n <= 0xffff_ffff then [254] + LittleEndian(n, 4)
    else [255] + LittleEndian(n, 8)
  }

  /** The count at the front of s and how many bytes it takes, unless the bytes run
      out, the count has a shorter form, or it is above the limit. */
  function ReadCompactSize(s: seq<nat>): (r: Option<(nat, nat)>)
    ensures r.Some? ==> r.value.0 <= MAX_SIZE && r.value.1 <= |s|
  {
    if s == [] then None
    else
      var k := if s[0] < 253 then 0 else if s[0] == 253 then 2 else if s[0] == 254 then 4 else 8;
      if |s| < 1 + k then None
      else
        var n := if k == 0 then s[0] else FromLittleEndian(s[1..1 + k]);
        var least := if k == 0 then 0 else if k == 2 then 253 else if k == 4 then 0x1_0000 else 0x1_0000_0000;
        if n < least || n > MAX_SIZE then None else Some((n, 1 + k))
  }

  function ByteLimit(k: nat): nat {
    if k == 0 then 1 else 256 * ByteLimit(k - 1)
  }

  lemma {:induction false} LittleEndianBack(n: nat, k: nat)
    requires n < ByteLimit(k)
    ensures FromLittleEndian(LittleEndian(n, k)) == n
    decreases k
  {
    if k > 0 {
      LittleEndianBack(n / 256, k - 1);
      assert LittleEndian(n, k)[1..] == LittleEndian(n / 256, k - 1);
    }
  }

  lemma ByteLimits()
    ensures ByteLimit(2) == 0x1_0000 && ByteLimit(4) == 0x1_0000_0000 && ByteLimit(8) == 0x1_0000_0000_0000_0000
  {
    assert ByteLimit(1) == 256;
    assert ByteLimit(3) == 0x100_0000;
    assert ByteLimit(6) == 0x1_0000_0000_0000;
    assert ByteLimit(7) == 0x100_0000_0000_0000;
  }

  /** A 64-bit count reads back, whatever follows, exactly up to the limit. */
  lemma CountReadsBack(n: nat, rest: seq<nat>)
    requires n <= 0xffff_ffff_ffff_ffff
    ensures var r := ReadCompactSize(CompactSize(n) + rest);
            if n <= MAX_SIZE then r.Some? && r.value.0 == n && r.value.1 == |CompactSize(n)| else r == None
  {
    hide LittleEndian, FromLittleEndian;
    ByteLimits();
    var s := CompactSize(n) + rest;
    if 253 <= n <= 0xffff {
      LittleEndianBack(n, 2);
      assert s[1..3] == LittleEndian(n, 2);
    } else if 0xffff < n <= 0xffff_ffff {
      LittleEndianBack(n, 4);
      assert s[1..5] == LittleEndian(n, 4);
    } else if n > 0xffff_ffff {
      LittleEndianBack(n, 8);
      assert s[1..9] == LittleEndian(n, 8);
    }
  }

  /** One more than the limit is written but cannot be read. */
  lemma LimitExample(rest: seq<nat>)
    ensures ReadCompactSize(CompactSize(0x0200_0001) + rest) == None
  {
    CountReadsBack(0x0200_0001, rest);
  }
}
