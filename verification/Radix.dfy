/** Numbers in any base, most significant digit first. */
module Radix {
  import opened Nonlinear

  function Exp(b: nat, n: nat): (r: nat)
    ensures b > 0 ==> r > 0
  {
    if n == 0 then 1 else b * Exp(b, n - 1)
  }

  lemma {:induction false} ExpAdd(b: nat, m: nat, n: nat)
    ensures Exp(b, m + n) == Exp(b, m) * Exp(b, n)
  {
    if m > 0 {
      ExpAdd(b, m - 1, n);
      MulAssoc(b, Exp(b, m - 1), Exp(b, n));
    }
  }

  lemma {:induction false} ExpMul(b: nat, m: nat, n: nat)
    ensures Exp(Exp(b, m), n) == Exp(b, m * n)
  {
    if n > 0 {
      ExpMul(b, m, n - 1);
      MulDist(m, n - 1, 1);
      ExpAdd(b, m, m * (n - 1));
    } else {
      assert m * n == 0;
    }
  }

  lemma {:induction false} ExpMono(b: nat, m: nat, n: nat)
    requires b > 0 && m <= n
    ensures Exp(b, m) <= Exp(b, n)
  {
    ExpAdd(b, m, n - m);
    MulMono(Exp(b, m), 1, Exp(b, n - m));
  }

  lemma {:induction false} BaseMono(a: nat, b: nat, n: nat)
    requires a <= b
    ensures Exp(a, n) <= Exp(b, n)
  {
    if n > 0 {
      BaseMono(a, b, n - 1);
      MulMono(a, Exp(a, n - 1), Exp(b, n - 1));
      MulMono(Exp(b, n - 1), a, b);
    }
  }

  /** Powers compare as their bases do. */
  lemma BaseCancel(a: nat, b: nat, n: nat)
    requires n > 0 && Exp(a, n) <= Exp(b, n)
    ensures a <= b
  {
    if a > b {
      BaseMono(b + 1, a, n);
      StrictMono(b, n);
    }
  }

  lemma {:induction false} StrictMono(b: nat, n: nat)
    requires n > 0
    ensures Exp(b, n) < Exp(b + 1, n)
  {
    if n > 1 {
      StrictMono(b, n - 1);
      MulMono(b, Exp(b, n - 1), Exp(b + 1, n - 1));
      MulDist(Exp(b + 1, n - 1), b, 1);
    }
  }

  // ---------- digits ----------

  ghost predicate AreDigits(s: seq<nat>, b: nat) {
    forall i :: 0 <= i < |s| ==> s[i] < b
  }

  function Value(s: seq<nat>, b: nat): nat {
    if s == [] then 0 else Value(s[..|s| - 1], b) * b + s[|s| - 1]
  }

  function Zeros(n: nat): (r: seq<nat>)
    ensures |r| == n && forall i :: 0 <= i < n ==> r[i] == 0
  {
    seq(n, _ => 0)
  }

  function LeadingZeros(s: seq<nat>): (n: nat)
    ensures n <= |s| && s[..n] == Zeros(n) && (n < |s| ==> s[n] != 0)
    ensures forall i :: 0 <= i < n ==> s[i] == 0
  {
    if s != [] && s[0] == 0 then
      var n := LeadingZeros(s[1..]);
      assert s[..n + 1] == [0] + s[1..][..n];
      n + 1
    else 0
  }

  function Quot(v: nat, b: nat): (q: nat)
    requires b > 1
    ensures v > 0 ==> q < v
  {
    if v == 0 then 0 else (QuotientLess(v, b); v / b)
  }

  function Rem(v: nat, b: nat): (r: nat)
    requires b > 1
    ensures r < b
  {
    v % b
  }

  /** The shortest digits of v. */
  function Digits(v: nat, b: nat): seq<nat>
    requires b > 1
  {
    if v == 0 then [] else Digits(Quot(v, b), b) + [Rem(v, b)]
  }

  lemma QuotRem(v: nat, b: nat)
    requires b > 1
    ensures v == Quot(v, b) * b + Rem(v, b)
  {
    if v > 0 { DivModFacts(v, b); } else { DivUnique(0, b, 0, 0); }
  }

  lemma ValueSnoc(s: seq<nat>, x: nat, b: nat)
    ensures Value(s + [x], b) == Value(s, b) * b + x
  {
    assert (s + [x])[..|s|] == s;
  }

  lemma {:induction false} ValueAppend(s: seq<nat>, t: seq<nat>, b: nat)
    ensures Value(s + t, b) == Value(s, b) * Exp(b, |t|) + Value(t, b)
  {
    if t == [] {
      assert s + t == s;
    } else {
      var t', x := t[..|t| - 1], t[|t| - 1];
      ValueAppend(s, t', b);
      assert (s + t)[..|s + t| - 1] == s + t';
      MulDist(b, Value(s, b) * Exp(b, |t'|), Value(t', b));
      MulAssoc(Value(s, b), Exp(b, |t'|), b);
    }
  }

  lemma {:induction false} ValueZeros(n: nat, b: nat)
    ensures Value(Zeros(n), b) == 0
  {
    if n > 0 {
      ValueZeros(n - 1, b);
      assert Zeros(n)[..n - 1] == Zeros(n - 1);
    }
  }

  lemma ValueSkip(s: seq<nat>, n: nat, b: nat)
    requires n <= |s| && s[..n] == Zeros(n)
    ensures Value(s, b) == Value(s[n..], b)
  {
    ValueAppend(s[..n], s[n..], b);
    assert s == s[..n] + s[n..];
    ValueZeros(n, b);
  }

  lemma {:induction false} ValueBound(s: seq<nat>, b: nat)
    requires AreDigits(s, b)
    ensures Value(s, b) < Exp(b, |s|)
  {
    if s != [] {
      var s' := s[..|s| - 1];
      ValueBound(s', b);
      MulMono(b, Value(s', b) + 1, Exp(b, |s'|));
      MulDist(b, Value(s', b), 1);
    }
  }

  lemma {:induction false} DigitsValue(v: nat, b: nat)
    requires b > 1
    ensures Value(Digits(v, b), b) == v
  {
    if v > 0 {
      DigitsValue(Quot(v, b), b);
      DigitsStep(v, b);
    }
  }

  lemma DigitsStep(v: nat, b: nat)
    requires b > 1 && v > 0 && Value(Digits(Quot(v, b), b), b) == Quot(v, b)
    ensures Value(Digits(v, b), b) == v
  {
    hide Quot, Rem, Value;
    QuotRem(v, b);
    ValueSnoc(Digits(Quot(v, b), b), Rem(v, b), b);
  }

  lemma {:induction false} DigitsShape(v: nat, b: nat)
    requires b > 1
    ensures AreDigits(Digits(v, b), b)
    ensures v > 0 ==> |Digits(v, b)| > 0 && Digits(v, b)[0] != 0
  {
    hide Quot, Rem;
    if v > 0 {
      QuotRem(v, b);
      DigitsShape(Quot(v, b), b);
    }
  }

  /** Digits without a leading zero are the shortest digits of their value. */
  lemma {:induction false} ValueDigits(s: seq<nat>, b: nat)
    requires b > 1 && AreDigits(s, b) && (s != [] ==> s[0] != 0)
    ensures Digits(Value(s, b), b) == s
  {
    hide Quot, Rem;
    if s != [] {
      var s', x := s[..|s| - 1], s[|s| - 1];
      ValueDigits(s', b);
      Positive(s, b);
      QuotOf(Value(s', b), x, b);
      assert s == s' + [x];
    }
  }

  lemma QuotOf(q: nat, x: nat, b: nat)
    requires b > 1 && x < b
    ensures q * b >= 0 && Quot(q * b + x, b) == q && Rem(q * b + x, b) == x
  {
    MulMono(b, 0, q);
    DivUnique(q * b + x, b, q, x);
  }

  lemma {:induction false} Positive(s: seq<nat>, b: nat)
    requires b > 1 && s != [] && s[0] != 0
    ensures Value(s, b) > 0
  {
    if |s| > 1 {
      Positive(s[..|s| - 1], b);
      MulMono(b, 1, Value(s[..|s| - 1], b));
    }
  }

  // ---------- changing base ----------

  /** The same number in another base, with the same leading zeros. */
  function Convert(s: seq<nat>, b: nat, c: nat): seq<nat>
    requires c > 1
  {
    Zeros(LeadingZeros(s)) + Digits(Value(s, b), c)
  }

  lemma LeadingZerosOf(n: nat, t: seq<nat>)
    requires t != [] ==> t[0] != 0
    ensures LeadingZeros(Zeros(n) + t) == n
  {
    var s := Zeros(n) + t;
    assert forall i :: 0 <= i < n ==> s[i] == 0;
    assert n < |s| ==> s[n] == t[0];
  }

  /** Converting back restores the digits. */
  lemma ConvertBack(s: seq<nat>, b: nat, c: nat)
    requires b > 1 && c > 1 && AreDigits(s, b)
    ensures AreDigits(Convert(s, b, c), c)
    ensures Convert(Convert(s, b, c), c, b) == s
  {
    hide Value, Digits, LeadingZeros;
    var n, v := LeadingZeros(s), Value(s, b);
    var d := Digits(v, c);
    DigitsShape(v, c);
    DigitsValue(v, c);
    if v == 0 { DigitsZero(c); }
    LeadingZerosOf(n, d);
    assert (Zeros(n) + d)[..n] == Zeros(n) && (Zeros(n) + d)[n..] == d;
    ValueSkip(Zeros(n) + d, n, c);
    ValueSkip(s, n, b);
    ValueDigits(s[n..], b);
    assert s == Zeros(n) + s[n..];
  }

  lemma DigitsZero(b: nat)
    requires b > 1
    ensures Digits(0, b) == []
  {
  }
}
