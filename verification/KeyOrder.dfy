/** Byte strings in lexicographic order, and the least key of a set from some
    point on: what the ordered containers and the database iterate by. */
module KeyOrder {
  import opened Options

  type Byte = x: int | 0 <= x < 256
  type Key = seq<Byte>

  predicate Less(a: Key, b: Key)
    decreases |a|
  {
    if b == [] then false
    else if a == [] then true
    else if a[0] < b[0] then true
    else if a[0] > b[0] then false
    else Less(a[1..], b[1..])
  }

  lemma {:induction false} LessTrans(a: Key, b: Key, c: Key)
    requires Less(a, b) && Less(b, c)
    ensures Less(a, c)
    decreases |a|
  {
    if a != [] && a[0] == b[0] == c[0] {
      LessTrans(a[1..], b[1..], c[1..]);
    }
  }

  lemma {:induction false} LessTotal(a: Key, b: Key)
    ensures a == b || Less(a, b) || Less(b, a)
    decreases |a|
  {
    if a != [] && b != [] && a[0] == b[0] {
      LessTotal(a[1..], b[1..]);
      assert a == [a[0]] + a[1..] && b == [b[0]] + b[1..];
    }
  }

  lemma {:induction false} LessIrreflexive(a: Key)
    ensures !Less(a, a)
    decreases |a|
  {
    if a != [] {
      LessIrreflexive(a[1..]);
    }
  }

  /** Where an iteration stands: everything that passes is still to come. */
  datatype Bound = Start | From(key: Key) | After(key: Key) | End

  ghost predicate Passes(b: Bound, x: Key) {
    match b
    case Start => true
    case From(k) => !Less(x, k)
    case After(k) => Less(k, x)
    case End => false
  }

  /** r is the least key of s that passes b. */
  ghost predicate IsLeast(s: set<Key>, b: Bound, r: Option<Key>) {
    match r
    case None => forall x :: x in s ==> !Passes(b, x)
    case Some(m) => m in s && Passes(b, m) && forall x :: x in s && Passes(b, x) ==> !Less(x, m)
  }

  lemma LeastUnique(s: set<Key>, b: Bound, r: Option<Key>, r': Option<Key>)
    requires IsLeast(s, b, r) && IsLeast(s, b, r')
    ensures r == r'
  {
    if r.Some? && r'.Some? {
      LessTotal(r.value, r'.value);
    }
  }

  /** What std::map and the database do to find a position: the least key that
      passes, by looking at all of them. */
  method FindLeast(s: set<Key>, pass: Key -> bool, ghost b: Bound) returns (r: Option<Key>)
    requires forall x :: pass(x) == Passes(b, x)
    ensures IsLeast(s, b, r)
  {
    r := None;
    var todo := s;
    while todo != {}
      invariant todo <= s && IsLeast(s - todo, b, r)
      decreases |todo|
    {
      var k :| k in todo;
      ghost var seen := s - todo;
      if pass(k) && (r.None? || Less(k, r.value)) {
        LeastExtend(seen, b, r, k);
        r := Some(k);
      } else {
        LeastSkip(seen, b, r, k);
      }
      todo := todo - {k};
      assert s - todo == seen + {k};
    }
    assert s - {} == s;
  }

  lemma LeastExtend(s: set<Key>, b: Bound, r: Option<Key>, k: Key)
    requires IsLeast(s, b, r) && Passes(b, k) && (r.None? || Less(k, r.value))
    ensures IsLeast(s + {k}, b, Some(k))
  {
    LessIrreflexive(k);
    forall x | x in s + {k} && Passes(b, x) ensures !Less(x, k) {
      if x != k && Less(x, k) {
        LessTrans(x, k, r.value);
      }
    }
  }

  lemma LeastSkip(s: set<Key>, b: Bound, r: Option<Key>, k: Key)
    requires IsLeast(s, b, r) && !(Passes(b, k) && (r.None? || Less(k, r.value)))
    ensures IsLeast(s + {k}, b, r)
  {
  }

  /** Going on after the least key. */
  lemma LeastNext(s: set<Key>, b: Bound, m: Key, x: Key)
    requires IsLeast(s, b, Some(m)) && x in s
    ensures Passes(b, x) <==> x == m || Passes(After(m), x)
  {
    LessTotal(x, m);
    if Passes(After(m), x) {
      match b
      case From(k) =>
        if Less(x, k) {
          LessTrans(m, x, k);
        }
      case After(k) => LessTrans(k, m, x);
      case _ =>
    }
  }
}
