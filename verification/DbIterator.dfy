/** The iterator over a stack of transactions: at each level it merges the
    level's own writes with what the parent's iterator still shows. */
module DbIterator {
  import opened Options
  import opened KeyOrder
  import opened DbTransaction

  /** Two disjoint sets of keys, each with its least: the smaller is the least
      of both. */
  lemma MergeLeast(w: set<Key>, r: set<Key>, b: Bound, x: Option<Key>, y: Option<Key>)
    requires w !! r && IsLeast(w, b, x) && IsLeast(r, b, y)
    ensures IsLeast(w + r, b, if x.None? then y else if y.None? || Less(x.value, y.value) then x else y)
  {
    if x.Some? && y.Some? {
      LessTotal(x.value, y.value);
      if Less(x.value, y.value) {
        forall k | k in w + r && Passes(b, k) ensures !Less(k, x.value) {
          if Less(k, x.value) {
            LessTrans(k, x.value, y.value);
          }
        }
      } else {
        forall k | k in w + r && Passes(b, k) ensures !Less(k, y.value) {
          if Less(k, y.value) {
            LessTrans(k, y.value, x.value);
          }
        }
      }
    }
  }

  /** The part that does not hold the current key stays where it is. */
  lemma LeastShift(all: set<Key>, part: set<Key>, b: Bound, c: Key, r: Option<Key>)
    requires IsLeast(all, b, Some(c)) && part <= all && c !in part && IsLeast(part, b, r)
    ensures IsLeast(part, After(c), r)
  {
    forall x | x in part ensures Passes(b, x) <==> Passes(After(c), x) {
      LeastNext(all, b, c, x);
    }
  }

  class TxIterator {
    const tx: Transaction
    const parentIt: TxIterator?     // null when iterating the database itself
    var cursor: Option<Key>       // in the transaction's writes, or in the database
    var parentKey: Key
    var curIsParent: bool

    ghost var bound: Bound        // everything that passes is still to come
    ghost const chain: set<TxIterator>

    ghost predicate Linked()
      decreases tx.depth
    {
      && this in chain && tx.Linked()
      && (parentIt == null <==> tx.parent == null)
      && (parentIt == null ==> chain == {this})
      && (parentIt != null ==>
            && parentIt.tx == tx.parent && parentIt.tx.depth < tx.depth
            && this !in parentIt.chain && chain == parentIt.chain + {this} && parentIt.Linked())
    }

    /** The parent's keys that are neither deleted nor overwritten here. */
    ghost function ParentKeys(): set<Key>
      requires Linked() && tx.parent != null
      reads tx.chain
    {
      tx.parent.View().Keys - tx.deletes - tx.writes.Keys
    }

    /** The key the iterator stands on. */
    ghost function Current(): Option<Key>
      requires Linked()
      reads chain
      decreases tx.depth
    {
      if parentIt == null then cursor
      else if cursor.None? && parentIt.Current().None? then None
      else if curIsParent then Some(parentKey)
      else cursor
    }

    ghost predicate Decided()
      requires Linked() && parentIt != null
      reads chain
    {
      var p := parentIt.Current();
      && (p.Some? ==> parentKey == p.value)
      && (cursor.Some? && p.None? ==> !curIsParent)
      && (cursor.None? && p.Some? ==> curIsParent)
      && (cursor.Some? && p.Some? ==> curIsParent == !Less(cursor.value, parentKey))
    }

    ghost predicate Inv()
      requires Linked()
      reads chain, tx.chain
      decreases tx.depth
    {
      if parentIt == null then IsLeast(tx.db.Keys, bound, cursor)
      else
        && parentIt.Inv() && Decided()
        && IsLeast(tx.writes.Keys, bound, cursor)
        && IsLeast(ParentKeys(), bound, parentIt.Current())
    }

    /** The iterator stands on the least key of the merged view that it has not
        passed. */
    lemma StandsOnLeast()
      requires Linked() && Inv()
      ensures IsLeast(tx.View().Keys, bound, Current())
    {
      if parentIt != null {
        MergeLeast(tx.writes.Keys, ParentKeys(), bound, cursor, parentIt.Current());
        assert tx.View().Keys == tx.writes.Keys + ParentKeys();
      }
    }

    /** However the same view is split into transactions, the position is the same. */
    lemma SamePosition(other: TxIterator)
      requires Linked() && Inv() && other.Linked() && other.Inv()
      requires tx.View().Keys == other.tx.View().Keys && bound == other.bound
      ensures Current() == other.Current() && Valid() == other.Valid()
    {
      StandsOnLeast();
      other.StandsOnLeast();
      LeastUnique(tx.View().Keys, bound, Current(), other.Current());
      ValidIsCurrent();
      other.ValidIsCurrent();
    }

    function Valid(): (r: bool)
      requires Linked()
      reads chain
      decreases tx.depth
    {
      cursor.Some? || (parentIt != null && parentIt.Valid())
    }

    lemma ValidIsCurrent()
      requires Linked()
      requires Inv()
      ensures Valid() == Current().Some?
      decreases tx.depth
    {
      if parentIt != null {
        parentIt.ValidIsCurrent();
      }
    }

    constructor (txIn: Transaction, parentItIn: TxIterator?)
      requires txIn.Linked() && (parentItIn == null <==> txIn.parent == null)
      requires parentItIn != null ==>
                 parentItIn.Linked() && parentItIn.tx == txIn.parent && parentItIn.Inv() && parentItIn.bound == End
      ensures Linked() && Inv() && tx == txIn && parentIt == parentItIn && bound == End
    {
      tx, parentIt := txIn, parentItIn;
      cursor, parentKey, curIsParent := None, [], false;
      bound := End;
      chain := if parentItIn == null then {this} else parentItIn.chain + {this};
      new;
      if parentIt != null {
        parentIt.StandsOnLeast();
      }
    }

    function GetKey(): (k: Key)
      requires Linked()
      reads chain
    {
      if !Valid() then []
      else if parentIt != null && curIsParent then parentKey
      else if cursor.Some? then cursor.value
      else []
    }

    /** Move the parent's iterator past the keys that are deleted or overwritten
        here; only such keys lie between `b` and where it stands. */
    method SkipDeletedAndOverwritten(ghost b: Bound)
      requires Linked() && tx.Ok() && parentIt != null && parentIt.Inv()
      requires Covered(tx.parent.View().Keys, ParentKeys(), b, parentIt.bound)
      modifies this`parentKey, parentIt.chain
      ensures parentIt.Inv() && IsLeast(ParentKeys(), b, parentIt.Current())
      ensures parentIt.Current().Some? ==> parentKey == parentIt.Current().value
      decreases tx.depth, 0
    {
      hide IsLeast, Covered, Remaining, Overlay;
      ghost var keys, kept := tx.parent.View().Keys, ParentKeys();
      while true
        invariant parentIt.Inv() && Covered(keys, kept, b, parentIt.bound)
        modifies this`parentKey, parentIt.chain
        decreases Remaining(keys, parentIt.bound)
      {
        parentIt.StandsOnLeast();
        parentIt.ValidIsCurrent();
        LeastFacts(keys, parentIt.bound, parentIt.Current());
        if !parentIt.Valid() {
          CoveredLeast(keys, kept, b, parentIt.bound, None);
          break;
        }
        parentKey := parentIt.GetKey();
        assert parentIt.Current() == Some(parentKey);
        if parentKey !in tx.deletes && parentKey !in tx.writes {
          CoveredLeast(keys, kept, b, parentIt.bound, Some(parentKey));
          break;
        }
        CoveredNext(keys, kept, b, parentIt.bound, parentKey);
        parentIt.Next();
      }
    }

    method DecideCur()
      requires Linked() && parentIt != null && parentIt.Inv()
      requires parentIt.Current().Some? ==> parentKey == parentIt.Current().value
      modifies this`curIsParent
      ensures Decided() && parentIt.Inv() && parentIt.Current() == old(parentIt.Current())
    {
      parentIt.ValidIsCurrent();
      if cursor.Some? && !parentIt.Valid() {
        curIsParent := false;
      } else if cursor.None? && parentIt.Valid() {
        curIsParent := true;
      } else if cursor.Some? && parentIt.Valid() {
        if Less(cursor.value, parentKey) {
          curIsParent := false;
        } else {
          curIsParent := true;
        }
      }
    }

    method Seek(key: Key)
      requires Linked() && tx.Ok()
      modifies chain
      ensures Inv() && bound == From(key)
      decreases tx.depth, 3
    {
      SeekTo(From(key), x => !Less(x, key));
    }

    method SeekToFirst()
      requires Linked() && tx.Ok()
      modifies chain
      ensures Inv() && bound == Start
      decreases tx.depth, 3
    {
      SeekTo(Start, x => true);
    }

    /** After the parent's iterator moved: skip, decide, and stand at `b`. */
    method Settle(ghost b: Bound)
      requires Linked() && tx.Ok() && parentIt != null && parentIt.Inv() && parentIt.bound == b
      requires IsLeast(tx.writes.Keys, b, cursor)
      modifies this`parentKey, this`curIsParent, this`bound, parentIt.chain
      ensures Inv() && bound == b
      decreases tx.depth, 1
    {
      hide IsLeast, Covered, Overlay, Less;
      CoveredSame(tx.parent.View().Keys, ParentKeys(), b);
      SkipDeletedAndOverwritten(b);
      DecideCur();
      bound := b;
    }

    /** Both seeks: the writes' lower bound, the parent's, and the merge. */
    method SeekTo(ghost b: Bound, pass: Key -> bool)
      requires Linked() && tx.Ok() && forall x :: pass(x) == Passes(b, x)
      modifies chain
      ensures Inv() && bound == b
      decreases tx.depth, 2
    {
      hide IsLeast, Overlay, Less;
      if parentIt == null {
        cursor := FindLeast(tx.db.Keys, pass, b);
        bound := b;
      } else {
        cursor := FindLeast(tx.writes.Keys, pass, b);
        parentIt.SeekTo(b, pass);
        Settle(b);
      }
    }

    /** On to the next key of the merged view; at the end nothing happens. */
    method Next()
      requires Linked() && tx.Ok() && Inv()
      modifies chain
      ensures Inv()
      ensures bound == if old(Current()).Some? then After(old(Current()).value) else old(bound)
      decreases tx.depth, 2
    {
      hide IsLeast, Overlay, Less, Passes;
      ValidIsCurrent();
      if !Valid() {
        return;
      }
      StandsOnLeast();
      LeastFacts(tx.View().Keys, bound, Current());
      if parentIt == null {
        NextOwn(tx.db.Keys);
      } else if curIsParent {
        OtherPartStays(tx.writes.Keys);
        ghost var b := After(parentKey);
        parentIt.Next();
        Settle(b);
      } else {
        OtherPartStays(ParentKeys());
        NextOwn(tx.writes.Keys);
        DecideCur();
      }
    }

    lemma OtherPartStays(part: set<Key>)
      requires Linked() && Inv() && parentIt != null && Current().Some?
      requires part == if curIsParent then tx.writes.Keys else ParentKeys()
      ensures IsLeast(part, After(Current().value), if curIsParent then cursor else parentIt.Current())
      ensures curIsParent ==> parentIt.Current() == Current() == Some(parentKey)
      ensures !curIsParent ==> cursor == Current()
    {
      StandsOnLeast();
      LeastShift(tx.View().Keys, part, bound, Current().value, if curIsParent then cursor else parentIt.Current());
    }

    /** A whole traversal: every key of the merged view from `start` on, once,
        in increasing order, with the value a read gives. */
    method Collect(start: Key) returns (keys: seq<Key>, values: seq<Value>)
      requires Linked() && tx.Ok()
      modifies chain
      ensures |keys| == |values| && forall i :: 0 <= i < |keys| ==>
                keys[i] in tx.View() && values[i] == tx.View()[keys[i]]
      ensures forall i, j :: 0 <= i < j < |keys| ==> Less(keys[i], keys[j])
      ensures forall k :: k in keys <==> k in tx.View() && !Less(k, start)
    {
      hide IsLeast, Overlay, Less, Passes, Remaining, Inv, Progress, Listed;
      Seek(start);
      keys, values := [], [];
      ghost var view := tx.View();
      ghost var all := view.Keys;
      ProgressStart(all, start);
      ListedNone(view);
      while true
        invariant Inv() && Progress(all, start, keys, bound)
        invariant tx.View() == view && Listed(view, keys, values)
        decreases Remaining(all, bound)
      {
        StandsOnLeast();
        ValidIsCurrent();
        LeastFacts(all, bound, Current());
        if !Valid() {
          ProgressDone(all, start, keys, bound);
          ListedAll(view, keys, values);
          return;
        }
        var k := GetKey();
        assert Current() == Some(k);
        ProgressNext(all, start, keys, bound, k);
        RemainingNext(all, bound, k);
        var found, v := tx.Read(k);
        ListedMore(view, keys, values, k, v);
        keys, values := keys + [k], values + [v];
        Next();
      }
    }

    /** Advance the own position past the key it is on. */
    method NextOwn(keys: set<Key>)
      requires cursor.Some?
      modifies this`cursor, this`bound
      ensures bound == After(old(cursor).value) && IsLeast(keys, bound, cursor)
    {
      var c := cursor.value;
      cursor := FindLeast(keys, x => Less(c, x), After(c));
      bound := After(c);
    }
  }

  /** `keys` are the members of `all` from `start` up to where `b` begins. */
  ghost predicate Progress(all: set<Key>, start: Key, keys: seq<Key>, b: Bound) {
    && b == (if keys == [] then From(start) else After(keys[|keys| - 1]))
    && (forall i, j :: 0 <= i < j < |keys| ==> Less(keys[i], keys[j]))
    && (forall k :: k in keys ==> k in all && !Less(k, start))
    && (forall k :: k in all && !Less(k, start) ==> k in keys || Passes(b, k))
  }

  /** Keys of a map with their values. */
  ghost predicate Listed(view: map<Key, Value>, keys: seq<Key>, values: seq<Value>) {
    |keys| == |values| && forall i :: 0 <= i < |keys| ==> keys[i] in view && values[i] == view[keys[i]]
  }

  lemma ListedNone(view: map<Key, Value>)
    ensures Listed(view, [], [])
  {
  }

  lemma ListedMore(view: map<Key, Value>, keys: seq<Key>, values: seq<Value>, k: Key, v: Value)
    requires Listed(view, keys, values) && k in view && view[k] == v
    ensures Listed(view, keys + [k], values + [v])
  {
  }

  lemma ListedAll(view: map<Key, Value>, keys: seq<Key>, values: seq<Value>)
    requires Listed(view, keys, values)
    ensures |keys| == |values| && forall i :: 0 <= i < |keys| ==> keys[i] in view && values[i] == view[keys[i]]
  {
  }

  lemma ProgressStart(all: set<Key>, start: Key)
    ensures Progress(all, start, [], From(start))
  {
  }

  lemma ProgressNext(all: set<Key>, start: Key, keys: seq<Key>, b: Bound, k: Key)
    requires Progress(all, start, keys, b) && IsLeast(all, b, Some(k))
    ensures Progress(all, start, keys + [k], After(k))
  {
    var keys' := keys + [k];
    forall x | x in all ensures Passes(b, x) <==> x == k || Passes(After(k), x) {
      LeastNext(all, b, k, x);
    }
    assert forall x :: x in keys' <==> x in keys || x == k;
    if keys != [] {
      var last := keys[|keys| - 1];
      assert last in keys;
      forall i | 0 <= i < |keys| ensures Less(keys[i], k) {
        if i < |keys| - 1 {
          LessTrans(keys[i], last, k);
        }
      }
      if Less(k, start) {
        LessTrans(last, k, start);
      }
    }
  }

  lemma ProgressDone(all: set<Key>, start: Key, keys: seq<Key>, b: Bound)
    requires Progress(all, start, keys, b) && IsLeast(all, b, None)
    ensures forall i, j :: 0 <= i < j < |keys| ==> Less(keys[i], keys[j])
    ensures forall k :: k in keys <==> k in all && !Less(k, start)
  {
  }

  lemma LeastFacts(s: set<Key>, b: Bound, r: Option<Key>)
    requires IsLeast(s, b, r)
    ensures r.Some? ==> r.value in s
  {
  }

  /** Beyond `b` and before `pb` there is no key that is kept. */
  ghost predicate Covered(keys: set<Key>, kept: set<Key>, b: Bound, pb: Bound) {
    && (forall x :: x in keys && Passes(pb, x) ==> Passes(b, x))
    && (forall x :: x in kept && Passes(b, x) ==> Passes(pb, x))
  }

  lemma CoveredSame(keys: set<Key>, kept: set<Key>, b: Bound)
    ensures Covered(keys, kept, b, b)
  {
  }

  lemma CoveredNext(keys: set<Key>, kept: set<Key>, b: Bound, pb: Bound, m: Key)
    requires Covered(keys, kept, b, pb) && kept <= keys && IsLeast(keys, pb, Some(m)) && m !in kept
    ensures Covered(keys, kept, b, After(m)) && Remaining(keys, After(m)) < Remaining(keys, pb)
  {
    RemainingNext(keys, pb, m);
    forall x | x in keys ensures Passes(pb, x) <==> x == m || Passes(After(m), x) {
      LeastNext(keys, pb, m, x);
    }
  }

  lemma CoveredLeast(keys: set<Key>, kept: set<Key>, b: Bound, pb: Bound, r: Option<Key>)
    requires Covered(keys, kept, b, pb) && kept <= keys && IsLeast(keys, pb, r) && (r.Some? ==> r.value in kept)
    ensures IsLeast(kept, b, r)
  {
  }

  ghost function Remaining(keys: set<Key>, b: Bound): nat {
    |set x | x in keys && Passes(b, x)|
  }

  lemma RemainingNext(keys: set<Key>, b: Bound, m: Key)
    requires IsLeast(keys, b, Some(m))
    ensures Remaining(keys, After(m)) < Remaining(keys, b)
  {
    var s, s' := set x | x in keys && Passes(b, x), set x | x in keys && Passes(After(m), x);
    forall x | x in s' ensures x in s - {m} {
      LeastNext(keys, b, m, x);
      LessIrreflexive(m);
    }
    Shrinks(s, s', m);
  }

  lemma Shrinks(s: set<Key>, s': set<Key>, m: Key)
    requires s' <= s - {m} && m in s
    ensures |s'| < |s|
  {
    SubsetSize(s', s - {m});
  }

  lemma {:induction false} SubsetSize(a: set<Key>, b: set<Key>)
    requires a <= b
    ensures |a| <= |b|
    decreases |a|
  {
    if a != {} {
      var x :| x in a;
      SubsetSize(a - {x}, b - {x});
    }
  }

}
