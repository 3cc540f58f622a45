/** Database transactions stacked on one another, each a set of pending writes
    and deletes over its parent. */
module DbTransaction {
  import opened KeyOrder

  type Value = seq<Byte>

  // ---------- memory accounting ----------

  ghost function WritesUsage(writes: map<Key, Value>): int
    decreases |writes|
  {
    if writes == map[] then 0
    else var k :| k in writes; |k| + |writes[k]| + WritesUsage(writes - {k})
  }

  ghost function DeletesUsage(deletes: set<Key>): int
    decreases |deletes|
  {
    if deletes == {} then 0
    else var k :| k in deletes; |k| + DeletesUsage(deletes - {k})
  }

  lemma {:induction false} WritesMinus(writes: map<Key, Value>, k: Key)
    requires k in writes
    ensures WritesUsage(writes) == |k| + |writes[k]| + WritesUsage(writes - {k})
    decreases |writes|
  {
    var p :| p in writes && WritesUsage(writes) == |p| + |writes[p]| + WritesUsage(writes - {p});
    if p != k {
      WritesMinus(writes - {p}, k);
      WritesMinus(writes - {k}, p);
      assert writes - {p} - {k} == writes - {k} - {p};
    }
  }

  lemma WritesPut(writes: map<Key, Value>, k: Key, v: Value)
    ensures WritesUsage(writes[k := v]) == WritesUsage(writes - {k}) + |k| + |v|
  {
    WritesMinus(writes[k := v], k);
    assert writes[k := v] - {k} == writes - {k};
  }

  lemma {:induction false} DeletesMinus(deletes: set<Key>, k: Key)
    requires k in deletes
    ensures DeletesUsage(deletes) == |k| + DeletesUsage(deletes - {k})
    decreases |deletes|
  {
    var p :| p in deletes && DeletesUsage(deletes) == |p| + DeletesUsage(deletes - {p});
    if p != k {
      DeletesMinus(deletes - {p}, k);
      DeletesMinus(deletes - {k}, p);
      assert deletes - {p} - {k} == deletes - {k} - {p};
    }
  }

  ghost function Overlay(parent: map<Key, Value>, writes: map<Key, Value>, deletes: set<Key>): map<Key, Value> {
    (parent - deletes) + writes
  }

  lemma OverlayWrite(parent: map<Key, Value>, writes: map<Key, Value>, deletes: set<Key>, k: Key, v: Value)
    ensures Overlay(parent, writes[k := v], deletes - {k}) == Overlay(parent, writes, deletes)[k := v]
  {
  }

  lemma OverlayErase(parent: map<Key, Value>, writes: map<Key, Value>, deletes: set<Key>, k: Key)
    ensures Overlay(parent, writes - {k}, deletes + {k}) == Overlay(parent, writes, deletes) - {k}
  {
  }

  lemma OverlayNothing(parent: map<Key, Value>)
    ensures Overlay(parent, map[], {}) == parent
  {
  }

  /** The view once everything but `todo` has been written. */
  ghost function Applied(view: map<Key, Value>, contents: map<Key, Value>, todo: map<Key, Value>): map<Key, Value> {
    view + (contents - todo.Keys)
  }

  lemma ApplyOne(view: map<Key, Value>, contents: map<Key, Value>, todo: map<Key, Value>, k: Key)
    requires k in todo && k in contents && todo[k] == contents[k]
    ensures Applied(view, contents, todo)[k := todo[k]] == Applied(view, contents, todo - {k})
  {
    assert (todo - {k}).Keys == todo.Keys - {k};
  }

  lemma ApplyEnds(view: map<Key, Value>, contents: map<Key, Value>)
    ensures Applied(view, contents, contents) == view && Applied(view, contents, map[]) == view + contents
  {
    assert contents - {} == contents;
  }

  class Transaction {
    const parent: Transaction?        // what reads fall through to; null for the database itself
    const commitTarget: Transaction?  // what Commit writes to, often the parent
    var db: map<Key, Value>           // the database's own contents
    var writes: map<Key, Value>
    var deletes: set<Key>
    var memoryUsage: int

    ghost const depth: nat
    ghost const chain: set<Transaction>

    ghost predicate Linked()
      decreases depth
    {
      && this in chain
      && (parent == null ==> chain == {this})
      && (parent != null ==>
            && parent.depth < depth && this !in parent.chain && chain == parent.chain + {this} && parent.Linked()
            && commitTarget != null && commitTarget.depth < depth && this !in commitTarget.chain
            && commitTarget.Linked())
    }

    /** What reads at this level see. */
    ghost function View(): map<Key, Value>
      requires Linked()
      reads chain
      decreases depth
    {
      if parent == null then db else Overlay(parent.View(), writes, deletes)
    }

    /** Nothing is both written and deleted, and the memory count is exact. */
    ghost predicate Sound()
      reads this
    {
      parent != null ==>
        && writes.Keys !! deletes
        && memoryUsage == WritesUsage(writes) + DeletesUsage(deletes)
    }

    ghost predicate Ok()
      reads chain
    {
      forall t :: t in chain ==> t.Sound()
    }

    constructor Database(contents: map<Key, Value>)
      ensures Linked() && Ok() && parent == null && View() == contents && fresh(chain)
    {
      parent, commitTarget := null, null;
      db, writes, deletes, memoryUsage := contents, map[], {}, 0;
      depth, chain := 0, {this};
    }

    constructor Begin(parentIn: Transaction, targetIn: Transaction)
      requires parentIn.Linked() && parentIn.Ok() && targetIn.Linked()
      ensures Linked() && Ok() && parent == parentIn && commitTarget == targetIn
      ensures View() == parentIn.View() && chain == parentIn.chain + {this}
    {
      parent, commitTarget := parentIn, targetIn;
      db, writes, deletes, memoryUsage := map[], map[], {}, 0;
      depth := (if parentIn.depth < targetIn.depth then targetIn.depth else parentIn.depth) + 1;
      chain := parentIn.chain + {this};
      new;
      OverlayNothing(parentIn.View());
    }

    method Write(key: Key, v: Value)
      requires Linked() && Ok()
      modifies this
      ensures Ok() && View() == old(View())[key := v]
    {
      hide Overlay, WritesUsage, DeletesUsage;
      if parent == null {
        db := db[key := v];
        return;
      }
      OverlayWrite(parent.View(), writes, deletes, key, v);
      if key in deletes {
        DeletesMinus(deletes, key);
        deletes := deletes - {key};
        memoryUsage := memoryUsage - |key|;
      } else {
        assert deletes - {key} == deletes;
      }
      WritesPut(writes, key, v);
      if key in writes {
        WritesMinus(writes, key);
        memoryUsage := memoryUsage - (|key| + |writes[key]|);
      } else {
        assert writes - {key} == writes;
      }
      writes := writes[key := v];
      memoryUsage := memoryUsage + |key| + |v|;
    }

    method Erase(key: Key)
      requires Linked() && Ok()
      modifies this
      ensures Ok() && View() == old(View()) - {key}
    {
      hide Overlay, WritesUsage, DeletesUsage;
      if parent == null {
        db := db - {key};
        return;
      }
      OverlayErase(parent.View(), writes, deletes, key);
      if key in writes {
        WritesMinus(writes, key);
        memoryUsage := memoryUsage - (|key| + |writes[key]|);
        writes := writes - {key};
      } else {
        assert writes - {key} == writes;
      }
      if key !in deletes {
        DeletesMinus(deletes + {key}, key);
        assert deletes + {key} - {key} == deletes;
        deletes := deletes + {key};
        memoryUsage := memoryUsage + |key|;
      } else {
        assert deletes + {key} == deletes;
      }
    }

    method Read(key: Key) returns (found: bool, value: Value)
      requires Linked() && Ok()
      ensures found <==> key in View()
      ensures found ==> value == View()[key]
      decreases depth
    {
      if parent == null {
        found := key in db;
        value := if found then db[key] else [];
        return;
      }
      if key in deletes {
        return false, [];
      }
      if key in writes {
        return true, writes[key];
      }
      found, value := parent.Read(key);
    }

    method Exists(key: Key) returns (found: bool)
      requires Linked() && Ok()
      ensures found <==> key in View()
      decreases depth
    {
      if parent == null {
        return key in db;
      }
      if key in deletes {
        return false;
      }
      if key in writes {
        return true;
      }
      found := parent.Exists(key);
    }

    method Clear()
      requires Linked() && Ok() && parent != null
      modifies this
      ensures Ok() && View() == parent.View() && writes == map[] && deletes == {} && memoryUsage == 0
    {
      hide Overlay;
      writes, deletes, memoryUsage := map[], {}, 0;
      OverlayNothing(parent.View());
    }

    /** Apply everything pending to the commit target; nothing is pending here
        then. When the target is the parent, it shows what this transaction showed. */
    method Commit()
      requires Linked() && Ok() && parent != null && commitTarget.Ok()
      modifies this, commitTarget
      ensures Ok() && commitTarget.Ok() && View() == parent.View()
      ensures commitTarget.View() == Overlay(old(commitTarget.View()), old(writes), old(deletes))
      ensures commitTarget == parent ==> parent.View() == View() == old(View())
      ensures writes == map[] && deletes == {} && memoryUsage == 0
    {
      hide WritesUsage, DeletesUsage;
      commitTarget.EraseAll(deletes);
      commitTarget.WriteAll(writes);
      Clear();
    }

    method EraseAll(keys: set<Key>)
      requires Linked() && Ok()
      modifies this
      ensures Ok() && View() == old(View()) - keys
    {
      hide Overlay, WritesUsage, DeletesUsage;
      var todo := keys;
      while todo != {}
        invariant Ok() && todo <= keys && View() == old(View()) - (keys - todo)
        decreases |todo|
      {
        var k :| k in todo;
        ghost var view := View();
        Erase(k);
        assert view - {k} == old(View()) - (keys - (todo - {k}));
        todo := todo - {k};
      }
      assert keys - {} == keys;
    }

    method WriteAll(contents: map<Key, Value>)
      requires Linked() && Ok()
      modifies this
      ensures Ok() && View() == old(View()) + contents
    {
      hide Overlay, WritesUsage, DeletesUsage;
      var todo := contents;
      ApplyEnds(View(), contents);
      hide Applied;
      while todo != map[]
        invariant Ok() && View() == Applied(old(View()), contents, todo)
        invariant forall k :: k in todo ==> k in contents && todo[k] == contents[k]
        decreases |todo|
      {
        var k :| k in todo;
        ApplyOne(old(View()), contents, todo, k);
        Write(k, todo[k]);
        todo := todo - {k};
      }
    }
  }
}
