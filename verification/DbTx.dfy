/** A database transaction: pending writes and deletes over a parent, and the iterator that merges the two.
  * `DbTransaction.dfy` holds the objects.
  */
module DbTx {
  import opened Prelude
  import Lex

  /** Serialised keys and values. */
  type Key = seq<nat>
  type Value = seq<nat>
  type Store = map<Key, Value>

  datatype Tx = Tx(writes: Store, deletes: set<Key>, usage: int)

  const CLEAN := Tx(map[], {}, 0)

  function Write(t: Tx, k: Key, v: Value): Tx {
    Tx(t.writes[k := v], t.deletes - {k},
       t.usage - (if k in t.deletes then |k| else 0) - (if k in t.writes then |k| + |t.writes[k]| else 0) + |k| + |v|)
  }

  function Erase(t: Tx, k: Key): Tx {
    Tx(t.writes - {k}, t.deletes + {k},
       t.usage - (if k in t.writes then |k| + |t.writes[k]| else 0) + (if k in t.deletes then 0 else |k|))
  }

  function Read(parent: Store, t: Tx, k: Key): Option<Value> {
    if k in t.deletes then None
    else if k in t.writes then Some(t.writes[k])
    else if k in parent then Some(parent[k]) else None
  }

  predicate Exists(parent: Store, t: Tx, k: Key) { k !in t.deletes && (k in t.writes || k in parent) }

  /** The store under the pending changes: deletes first, then writes. */
  function Overlay(target: Store, t: Tx): Store { (target - t.deletes) + t.writes }

  // ---------------------------------------------------------------- runs against a plain map

  datatype Change = Put(key: Key, value: Value) | Drop(key: Key)

  function Apply(s: Store, c: Change): Store {
    match c
    case Put(k, v) => s[k := v]
    case Drop(k) => s - {k}
  }

  function Record(t: Tx, c: Change): Tx {
    match c
    case Put(k, v) => Write(t, k, v)
    case Drop(k) => Erase(t, k)
  }

  function ApplyAll(s: Store, cs: seq<Change>): Store {
    if cs == [] then s else Apply(ApplyAll(s, cs[..|cs| - 1]), cs[|cs| - 1])
  }

  function RecordAll(cs: seq<Change>): Tx {
    if cs == [] then CLEAN else Record(RecordAll(cs[..|cs| - 1]), cs[|cs| - 1])
  }

  /** Bytes of the pending writes and of the pending deletes. */
  ghost function WriteBytes(w: Store): nat {
    if w == map[] then 0 else var k :| k in w; |k| + |w[k]| + WriteBytes(w - {k})
  }

  ghost function DeleteBytes(d: set<Key>): nat {
    if d == {} then 0 else var k :| k in d; |k| + DeleteBytes(d - {k})
  }

  lemma {:induction false} WriteBytesRemove(w: Store, k: Key)
    requires k in w
    ensures WriteBytes(w) == |k| + |w[k]| + WriteBytes(w - {k})
    decreases |w|
  {
    var p :| p in w && WriteBytes(w) == |p| + |w[p]| + WriteBytes(w - {p});
    if p != k {
      WriteBytesRemove(w - {p}, k);
      WriteBytesRemove(w - {k}, p);
      assert w - {p} - {k} == w - {k} - {p};
    }
  }

  lemma {:induction false} DeleteBytesRemove(d: set<Key>, k: Key)
    requires k in d
    ensures DeleteBytes(d) == |k| + DeleteBytes(d - {k})
    decreases |d|
  {
    var p :| p in d && DeleteBytes(d) == |p| + DeleteBytes(d - {p});
    if p != k {
      DeleteBytesRemove(d - {p}, k);
      DeleteBytesRemove(d - {k}, p);
      assert d - {p} - {k} == d - {k} - {p};
    }
  }

  /** No key is both written and deleted, and the usage is the exact sum. */
  ghost predicate Inv(t: Tx) {
    t.writes.Keys !! t.deletes && t.usage == WriteBytes(t.writes) + DeleteBytes(t.deletes)
  }

  lemma RecordKeeps(t: Tx, c: Change)
    requires Inv(t)
    ensures Inv(Record(t, c))
  {
    var k := c.key;
    if k in t.writes { WriteBytesRemove(t.writes, k); }
    if k in t.deletes { DeleteBytesRemove(t.deletes, k); }
    assert k !in t.writes ==> t.writes - {k} == t.writes;
    assert k !in t.deletes ==> t.deletes - {k} == t.deletes;
    match c {
      case Put(_, v) =>
        WriteBytesRemove(t.writes[k := v], k);
        assert t.writes[k := v] - {k} == t.writes - {k};
      case Drop(_) =>
        DeleteBytesRemove(t.deletes + {k}, k);
        assert t.deletes + {k} - {k} == t.deletes - {k};
        assert k in t.deletes ==> t.deletes + {k} == t.deletes;
    }
  }

  /** Recording a change and then committing is committing and then making the change. */
  lemma RecordRefines(target: Store, t: Tx, c: Change)
    ensures Overlay(target, Record(t, c)) == Apply(Overlay(target, t), c)
  {}

  /** Any run of writes and erases: the transaction reads, and commits, as if made on the parent itself. */
  lemma {:induction false} RunRefines(parent: Store, cs: seq<Change>)
    ensures Inv(RecordAll(cs)) && Overlay(parent, RecordAll(cs)) == ApplyAll(parent, cs)
  {
    if cs == [] {
      assert parent - {} + map[] == parent;
    } else {
      RunRefines(parent, cs[..|cs| - 1]);
      RecordKeeps(RecordAll(cs[..|cs| - 1]), cs[|cs| - 1]);
      RecordRefines(parent, RecordAll(cs[..|cs| - 1]), cs[|cs| - 1]);
    }
  }

  lemma ReadsView(parent: Store, t: Tx, k: Key)
    requires Inv(t)
    ensures var view := Overlay(parent, t);
            && Read(parent, t, k) == (if k in view then Some(view[k]) else None)
            && (Exists(parent, t, k) <==> k in view)
  {
    assert k in t.writes.Keys ==> k !in t.deletes;
  }

  // ---------------------------------------------------------------- ordered keys

  /** `m` comes before every other key of `s`. */
  predicate IsLeast(s: set<Key>, m: Key) { m in s && forall k :: k in s ==> k == m || Lex.Less(m, k) }

  /** Where an iterator stands: a key, or past the end. It is the first of the keys still ahead. */
  predicate Heads(ahead: set<Key>, pos: Option<Key>) {
    match pos
    case None => ahead == {}
    case Some(m) => IsLeast(ahead, m)
  }

  lemma LeastUnique(s: set<Key>, a: Key, b: Key)
    requires IsLeast(s, a) && IsLeast(s, b)
    ensures a == b
  {
    if a != b { Lex.Asymmetric(a, b); }
  }

  /** The keys of `s` from `from` on. */
  function From(s: set<Key>, from: Key): set<Key> { set k | k in s && !Lex.Less(k, from) }

  /** The keys of `s` after `k`. */
  function After(s: set<Key>, k: Key): set<Key> { set x | x in s && Lex.Less(k, x) }

  /** What an iterator over `s` at `pos` has still to visit. */
  function Ahead(s: set<Key>, pos: Option<Key>): set<Key> {
    match pos
    case None => {}
    case Some(k) => From(s, k)
  }

  predicate UpClosed(s: set<Key>, part: set<Key>) {
    part <= s && forall a, b :: a in part && b in s && Lex.Less(a, b) ==> b in part
  }

  /** An iterator at the first key of an end part of `s` has that part ahead of it. */
  lemma AheadIs(s: set<Key>, part: set<Key>, pos: Option<Key>)
    requires UpClosed(s, part) && Heads(part, pos)
    ensures Ahead(s, pos) == part
  {
    if pos.Some? {
      var m := pos.value;
      forall k ensures k in From(s, m) <==> k in part {
        if k in From(s, m) { Lex.Total(k, m); }
        if k in part && Lex.Less(k, m) { Lex.Asymmetric(k, m); }
      }
    }
  }

  lemma EndParts(s: set<Key>, k: Key)
    ensures UpClosed(s, s) && UpClosed(s, From(s, k)) && UpClosed(s, After(s, k))
    ensures After(s, k) == From(s, k) - {k}
  {
    forall a, b | a in From(s, k) && b in s && Lex.Less(a, b) ensures b in From(s, k) {
      if Lex.Less(b, k) { Lex.Transitive(a, b, k); }
    }
    forall a, b | a in After(s, k) && b in s && Lex.Less(a, b) ensures b in After(s, k) { Lex.Transitive(k, a, b); }
    forall x ensures x in After(s, k) <==> x in From(s, k) - {k} {
      Lex.Total(x, k);
      if Lex.Less(k, x) { Lex.Asymmetric(k, x); }
    }
  }

  /** The end part of a subset is its share of the end part. */
  lemma AheadOfPart(s: set<Key>, part: set<Key>, pos: Option<Key>)
    requires part <= s
    ensures Ahead(part, pos) == Ahead(s, pos) * part
  {}

  // ---------------------------------------------------------------- the merging iterator

  /** The transaction's own position, the parent's, and which of them is current. */
  datatype Cursor = Cursor(tx: Option<Key>, up: Option<Key>, curIsParent: bool)

  /** The keys still to be visited. */
  function Remaining(parent: Store, t: Tx, c: Cursor): set<Key> {
    Ahead(t.writes.Keys, c.tx) + Ahead(Visible(parent, t), c.up)
  }

  predicate Valid(c: Cursor) { c.tx.Some? || c.up.Some? }

  function Current(c: Cursor): Key
    requires Valid(c) && (if c.curIsParent then c.up.Some? else c.tx.Some?)
  {
    if c.curIsParent then c.up.value else c.tx.value
  }

  /** Keys the parent has to itself. */
  function Visible(parent: Store, t: Tx): set<Key> { set k | k in parent && k !in t.deletes && k !in t.writes }

  /** Both positions are at keys, the parent's at one it has to itself, and the smaller is current. */
  predicate Placed(parent: Store, t: Tx, c: Cursor) {
    && (c.tx.Some? ==> c.tx.value in t.writes)
    && (c.up.Some? ==> c.up.value in Visible(parent, t))
    && (Valid(c) ==> c.curIsParent == (c.tx.None? || (c.up.Some? && !Lex.Less(c.tx.value, c.up.value))))
  }

  /** The current key is the least of all keys still to be visited. */
  lemma CurrentIsLeast(parent: Store, t: Tx, c: Cursor)
    requires Placed(parent, t, c)
    ensures Valid(c) <==> Remaining(parent, t, c) != {}
    ensures Valid(c) ==> IsLeast(Remaining(parent, t, c), Current(c))
  {
    if Valid(c) {
      var m := Current(c);
      if Lex.Less(m, m) { Lex.Asymmetric(m, m); }
      assert m in Remaining(parent, t, c);
      forall k | k in Remaining(parent, t, c) ensures k == m || Lex.Less(m, k) {
        Lex.Total(k, m);
        if Lex.Less(k, m) { NotBefore(parent, t, c, k); }
      }
    }
  }

  lemma NotBefore(parent: Store, t: Tx, c: Cursor, k: Key)
    requires Placed(parent, t, c) && Valid(c) && k in Remaining(parent, t, c)
    ensures !Lex.Less(k, Current(c))
  {
    var m := Current(c);
    if c.tx.Some? && c.up.Some? && Lex.Less(k, m) {
      var a, b := c.tx.value, c.up.value;
      Lex.Total(a, b);
      if c.curIsParent && a != b { Lex.Transitive(k, b, a); }
      if !c.curIsParent { Lex.Transitive(k, a, b); }
    }
  }

  /** What the overlaid view holds: the transaction's writes, and what the parent has to itself. */
  lemma ViewKeys(parent: Store, t: Tx)
    requires Inv(t)
    ensures Overlay(parent, t).Keys == t.writes.Keys + Visible(parent, t) && t.writes.Keys !! Visible(parent, t)
  {}

  /** `out` lists the keys of `s`, each once, in ascending order. */
  ghost predicate Lists(out: seq<Key>, s: set<Key>) {
    && (forall k :: k in out <==> k in s)
    && (forall i, j :: 0 <= i < j < |out| ==> Lex.Less(out[i], out[j]))
  }

  /** A listing is the only one. */
  lemma {:induction false} ListsUnique(a: seq<Key>, b: seq<Key>, s: set<Key>)
    requires Lists(a, s) && Lists(b, s)
    ensures a == b
    decreases |a|
  {
    if a == [] {
      if b != [] { HasFirst(b); }
    } else {
      assert a[0] in s && a[0] in b;
      FirstIsLeast(a, s);
      FirstIsLeast(b, s);
      LeastUnique(s, a[0], b[0]);
      RestLists(a, s);
      RestLists(b, s);
      ListsUnique(a[1..], b[1..], s - {a[0]});
      assert a == [a[0]] + a[1..] && b == [b[0]] + b[1..];
    }
  }

  lemma HasFirst(b: seq<Key>)
    requires b != []
    ensures b[0] in b
  {}

  lemma FirstIsLeast(a: seq<Key>, s: set<Key>)
    requires Lists(a, s) && a != []
    ensures IsLeast(s, a[0])
  {
    forall k | k in s ensures k == a[0] || Lex.Less(a[0], k) {
      assert k in a;
      var i :| 0 <= i < |a| && a[i] == k;
    }
  }

  lemma RestLists(a: seq<Key>, s: set<Key>)
    requires Lists(a, s) && a != []
    ensures Lists(a[1..], s - {a[0]})
  {
    forall k ensures k in a[1..] <==> k in s - {a[0]} {
      if k in a[1..] {
        var i :| 0 <= i < |a[1..]| && a[1..][i] == k;
        assert Lex.Less(a[0], a[i + 1]);
        if k == a[0] { Lex.Asymmetric(a[0], k); }
        assert a[i + 1] in a;
      }
      if k in s && k != a[0] {
        var i :| 0 <= i < |a| && a[i] == k;
        assert a[1..][i - 1] == k;
      }
    }
  }
}
