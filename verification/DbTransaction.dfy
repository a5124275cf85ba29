/** The database transaction and its iterator as objects over a key-value store. */
module DbTransaction {
  import opened Prelude
  import opened DbTx
  import Lex

  class Database {
    var data: Store

    constructor ()
      ensures data == map[]
    {
      data := map[];
    }

    method Write(k: Key, v: Value)
      modifies this
      ensures data == old(data)[k := v]
    {
      data := data[k := v];
    }

    method Erase(k: Key)
      modifies this
      ensures data == old(data) - {k}
    {
      data := data - {k};
    }

    function Read(k: Key): Option<Value>
      reads this
    {
      if k in data then Some(data[k]) else None
    }

    predicate Exists(k: Key)
      reads this
    {
      k in data
    }
  }

  /** The first of a set of keys, as an ordered container finds it. */
  method LeastOf(s: set<Key>) returns (pos: Option<Key>)
    ensures Heads(s, pos)
  {
    pos := None;
    var todo := s;
    while todo != {}
      invariant todo <= s && Heads(s - todo, pos)
      decreases todo
    {
      var k :| k in todo;
      ghost var seen := s - todo;
      todo := todo - {k};
      assert s - todo == seen + {k};
      match pos {
        case None => { pos := Some(k); }
        case Some(m) => {
          Lex.Total(m, k);
          if Lex.Less(k, m) {
            forall x | x in seen ensures x == k || Lex.Less(k, x) { if x != m { Lex.Transitive(k, m, x); } }
            pos := Some(k);
          }
        }
      }
    }
    assert s - todo == s;
  }

  class Transaction {
    const parent: Database
    const target: Database
    var writes: Store
    /** The type under which each pending value was written. */
    var kinds: map<Key, nat>
    var deletes: set<Key>
    var usage: int

    ghost predicate Typed()
      reads this
    {
      kinds.Keys == writes.Keys
    }

    function Value(): Tx
      reads this
    {
      Tx(writes, deletes, usage)
    }

    constructor (parent: Database, target: Database)
      ensures this.parent == parent && this.target == target && Value() == CLEAN && Inv(Value()) && Typed()
    {
      this.parent, this.target := parent, target;
      writes, kinds, deletes, usage := map[], map[], {}, 0;
    }

    method Write(k: Key, v: DbTx.Value, kind: nat)
      requires Inv(Value()) && Typed()
      modifies this
      ensures Value() == DbTx.Write(old(Value()), k, v) && Inv(Value())
      ensures kinds == old(kinds)[k := kind] && Typed()
    {
      RecordKeeps(Value(), Put(k, v));
      if k in deletes {
        deletes := deletes - {k};
        usage := usage - |k|;
      }
      if k in writes { usage := usage - (|k| + |writes[k]|); }
      writes, kinds := writes[k := v], kinds[k := kind];
      usage := usage + |k| + |v|;
      assert k !in old(deletes) ==> deletes == old(deletes) - {k};
    }

    /** Throws exactly when a pending value of another type is asked for, and otherwise reads the overlaid view. */
    method Read(k: Key, kind: nat) returns (threw: bool, r: Option<DbTx.Value>)
      requires Inv(Value()) && Typed()
      ensures threw <==> k in writes && kinds[k] != kind
      ensures var view := Overlay(parent.data, Value()); !threw ==> r == if k in view then Some(view[k]) else None
    {
      ReadsView(parent.data, Value(), k);
      if k in deletes { return false, None; }
      if k in writes {
        if kinds[k] != kind { return true, None; }
        return false, Some(writes[k]);
      }
      return false, parent.Read(k);
    }

    method Exists(k: Key) returns (r: bool)
      requires Inv(Value())
      ensures r <==> k in Overlay(parent.data, Value())
    {
      ReadsView(parent.data, Value(), k);
      if k in deletes { return false; }
      if k in writes { return true; }
      return parent.Exists(k);
    }

    method Erase(k: Key)
      requires Inv(Value()) && Typed()
      modifies this
      ensures Value() == DbTx.Erase(old(Value()), k) && Inv(Value())
      ensures kinds == old(kinds) - {k} && Typed()
    {
      RecordKeeps(Value(), Drop(k));
      if k in writes {
        usage := usage - (|k| + |writes[k]|);
        writes, kinds := writes - {k}, kinds - {k};
      }
      if k !in deletes {
        deletes := deletes + {k};
        usage := usage + |k|;
      }
      assert k !in old(writes) ==> writes == old(writes) - {k} && kinds == old(kinds) - {k};
      assert k in old(deletes) ==> deletes == old(deletes) + {k};
    }

    method Clear()
      modifies this
      ensures Value() == CLEAN && Inv(Value()) && Typed()
    {
      writes, kinds, deletes, usage := map[], map[], {}, 0;
    }

    /** Every delete and then every write goes to the target; the target ends as the overlaid view of what it held. */
    method Commit()
      modifies this, target
      ensures target.data == Overlay(old(target.data), old(Value()))
      ensures Value() == CLEAN && Typed()
    {
      EraseAll();
      WriteAll();
      Clear();
    }

    method EraseAll()
      modifies target
      ensures target.data == old(target.data) - deletes
    {
      ghost var before := target.data;
      var todo := deletes;
      while todo != {}
        invariant todo <= deletes && target.data == before - (deletes - todo)
        decreases todo
      {
        var k :| k in todo;
        todo := todo - {k};
        target.Erase(k);
      }
    }

    method WriteAll()
      modifies target
      ensures target.data == old(target.data) + writes
    {
      ghost var before := target.data;
      var left := writes;
      ghost var done: Store := map[];
      while left != map[]
        invariant left.Keys <= writes.Keys && done.Keys == writes.Keys - left.Keys
        invariant forall k :: k in left ==> left[k] == writes[k]
        invariant forall k :: k in done ==> done[k] == writes[k]
        invariant target.data == before + done
        decreases left.Keys
      {
        var k :| k in left;
        target.Write(k, left[k]);
        done := done[k := left[k]];
        left := left - {k};
      }
      assert done == writes;
    }

    predicate IsClean()
      reads this
    {
      writes == map[] && deletes == {}
    }

    /** Never the zero it reports for a negative count, since the count is exact. */
    method GetMemoryUsage() returns (n: int)
      requires Inv(Value())
      ensures n == WriteBytes(writes) + DeleteBytes(deletes)
    {
      if usage < 0 { return 0; }
      return usage;
    }
  }

  class Iterator {
    const tx: Transaction
    var txPos: Option<Key>
    var upPos: Option<Key>
    var parentKey: Key
    var curIsParent: bool

    function Position(): Cursor
      reads this
    {
      Cursor(txPos, upPos, curIsParent)
    }

    ghost predicate Ok()
      reads this, tx, tx.parent
    {
      && Inv(tx.Value()) && Placed(tx.parent.data, tx.Value(), Position())
      && (upPos.Some? ==> parentKey == upPos.value)
    }

    ghost function Left(): set<Key>
      reads this, tx, tx.parent
    {
      Remaining(tx.parent.data, tx.Value(), Position())
    }

    ghost function View(): Store
      reads tx, tx.parent
    {
      Overlay(tx.parent.data, tx.Value())
    }

    constructor (tx: Transaction)
      ensures this.tx == tx && txPos == None
    {
      this.tx := tx;
      txPos, upPos, parentKey, curIsParent := None, None, [], false;
    }

    /** The parent's position moves past keys that the transaction deletes or overwrites. */
    method SkipDeletedAndOverwritten(ghost raw: set<Key>)
      requires UpClosed(tx.parent.data.Keys, raw) && Heads(raw, upPos)
      modifies this
      ensures txPos == old(txPos) && curIsParent == old(curIsParent)
      ensures upPos.Some? ==> upPos.value in Visible(tx.parent.data, tx.Value()) && parentKey == upPos.value
      ensures Ahead(Visible(tx.parent.data, tx.Value()), upPos) == raw * Visible(tx.parent.data, tx.Value())
    {
      ghost var keys, visible := tx.parent.data.Keys, Visible(tx.parent.data, tx.Value());
      ghost var ahead := raw;
      while upPos.Some?
        invariant UpClosed(keys, ahead) && Heads(ahead, upPos) && ahead * visible == raw * visible
        invariant txPos == old(txPos) && curIsParent == old(curIsParent)
        decreases ahead
      {
        parentKey := upPos.value;
        if parentKey !in tx.deletes && parentKey !in tx.writes { break; }
        AheadIs(keys, ahead, upPos);
        EndParts(keys, parentKey);
        ahead := After(keys, parentKey);
        upPos := LeastOf(set k | k in tx.parent.data && Lex.Less(parentKey, k));
        assert ahead == set k | k in tx.parent.data && Lex.Less(parentKey, k);
      }
      AheadIs(keys, ahead, upPos);
      AheadOfPart(keys, visible, upPos);
    }

    method DecideCur()
      modifies this
      ensures txPos == old(txPos) && upPos == old(upPos) && parentKey == old(parentKey)
      ensures (old(upPos).Some? ==> old(upPos).value == old(parentKey)) && Valid(Position())
              ==> curIsParent == (txPos.None? || (upPos.Some? && !Lex.Less(txPos.value, upPos.value)))
    {
      if txPos.Some? && upPos.None? {
        curIsParent := false;
      } else if txPos.None? && upPos.Some? {
        curIsParent := true;
      } else if txPos.Some? && upPos.Some? {
        curIsParent := !Lex.Less(txPos.value, parentKey);
      }
    }

    method SeekToFirst()
      requires Inv(tx.Value())
      modifies this
      ensures Ok() && Left() == View().Keys
    {
      ghost var own, keys := tx.writes.Keys, tx.parent.data.Keys;
      EndParts(own, []);
      EndParts(keys, []);
      txPos := LeastOf(tx.writes.Keys);
      upPos := LeastOf(tx.parent.data.Keys);
      AheadIs(own, own, txPos);
      SkipDeletedAndOverwritten(keys);
      DecideCur();
      ViewKeys(tx.parent.data, tx.Value());
    }

    method Seek(from: Key)
      requires Inv(tx.Value())
      modifies this
      ensures Ok() && Left() == From(View().Keys, from)
    {
      ghost var own, keys := tx.writes.Keys, tx.parent.data.Keys;
      EndParts(own, from);
      EndParts(keys, from);
      txPos := LeastOf(set k | k in tx.writes && !Lex.Less(k, from));
      upPos := LeastOf(set k | k in tx.parent.data && !Lex.Less(k, from));
      assert From(own, from) == set k | k in tx.writes && !Lex.Less(k, from);
      assert From(keys, from) == set k | k in tx.parent.data && !Lex.Less(k, from);
      AheadIs(own, From(own, from), txPos);
      SkipDeletedAndOverwritten(From(keys, from));
      DecideCur();
      ViewKeys(tx.parent.data, tx.Value());
    }

    method Next()
      requires Ok()
      modifies this
      ensures Ok()
      ensures Left() == if old(Valid(Position())) then old(Left()) - {old(Current(Position()))} else old(Left())
    {
      if txPos.None? && upPos.None? { return; }
      ghost var visible := Visible(tx.parent.data, tx.Value());
      if curIsParent {
        ghost var keys := tx.parent.data.Keys;
        var m := upPos.value;
        EndParts(keys, m);
        EndParts(visible, m);
        upPos := LeastOf(set k | k in tx.parent.data && Lex.Less(m, k));
        assert After(keys, m) == set k | k in tx.parent.data && Lex.Less(m, k);
        SkipDeletedAndOverwritten(After(keys, m));
        assert After(keys, m) * visible == After(visible, m);
        assert m !in tx.writes.Keys;
      } else {
        ghost var own := tx.writes.Keys;
        var m := txPos.value;
        EndParts(own, m);
        txPos := LeastOf(set k | k in tx.writes && Lex.Less(m, k));
        assert After(own, m) == set k | k in tx.writes && Lex.Less(m, k);
        AheadIs(own, After(own, m), txPos);
        assert m !in visible;
      }
      DecideCur();
    }

    method GetKey() returns (k: Option<Key>)
      requires Ok()
      ensures Heads(Left(), k)
    {
      CurrentIsLeast(tx.parent.data, tx.Value(), Position());
      if txPos.None? && upPos.None? { return None; }
      if curIsParent { return Some(parentKey); }
      return txPos;
    }

    /** The value at the current key, unless it is pending under another type. */
    method GetValue(kind: nat) returns (threw: bool, v: Option<DbTx.Value>)
      requires Ok() && tx.Typed()
      ensures threw <==> Left() != {} && var c := Current(Position()); c in tx.writes && tx.kinds[c] != kind
      ensures !threw ==> v == if Left() == {} then None else
                              (var c := Current(Position()); if c in View() then Some(View()[c]) else None)
      ensures !threw && Left() != {} ==> v.Some?
    {
      CurrentIsLeast(tx.parent.data, tx.Value(), Position());
      ViewKeys(tx.parent.data, tx.Value());
      if txPos.None? && upPos.None? { return false, None; }
      if curIsParent { threw, v := tx.Read(parentKey, kind); } else { threw, v := tx.Read(txPos.value, kind); }
    }
  }

  /** The keys of `all` that are no longer in `left` are listed, and come before those that are. */
  ghost predicate Listed(out: seq<Key>, all: set<Key>, left: set<Key>) {
    Lists(out, all - left) && left <= all && forall x, y :: x in out && y in left ==> Lex.Less(x, y)
  }

  lemma HeadIsLeast(s: set<Key>, pos: Option<Key>)
    requires Heads(s, pos) && pos.Some?
    ensures IsLeast(s, pos.value)
  {}

  lemma NothingListed(all: set<Key>)
    ensures Listed([], all, all)
  {}

  lemma AllListed(out: seq<Key>, all: set<Key>)
    requires Listed(out, all, {})
    ensures Lists(out, all)
  {
    assert all - {} == all;
  }

  lemma ListNext(out: seq<Key>, all: set<Key>, left: set<Key>, k: Key)
    requires Listed(out, all, left) && IsLeast(left, k)
    ensures Listed(out + [k], all, left - {k}) && left - {k} < left
  {}

  /** Walking on from wherever the iterator stands lists exactly the keys still ahead, each once and in order. */
  method Walk(it: Iterator) returns (out: seq<Key>)
    requires it.Ok()
    modifies it
    ensures Lists(out, old(it.Left()))
  {
    hide Listed, Remaining, IsLeast;
    ghost var all := it.Left();
    out := [];
    NothingListed(all);
    var k := it.GetKey();
    while k.Some?
      invariant it.Ok() && Heads(it.Left(), k) && it.Left() <= all
      invariant Listed(out, all, it.Left())
      decreases it.Left()
    {
      ghost var left := it.Left();
      CurrentIsLeast(it.tx.parent.data, it.tx.Value(), it.Position());
      HeadIsLeast(left, k);
      LeastUnique(left, k.value, Current(it.Position()));
      ListNext(out, all, left, k.value);
      it.Next();
      out := out + [k.value];
      k := it.GetKey();
    }
    AllListed(out, all);
  }
}
