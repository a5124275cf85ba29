/** What the rolling Bloom filter finds, exactly. */
module BloomExact {
  import opened Arith
  import opened Bloom

  /** A key of the generation that is `age` generations old points to this place. */
  ghost predicate WrittenBy(ps: Params, keys: seq<Key>, cur: nat, age: nat, p: nat, b: bv64)
    requires ps.Ok()
  {
    exists i :: 0 <= i < |keys| && i >= (cur - age) * ps.per && Placed(ps, keys[i], ps.funcs, p, b)
  }

  /** Every mark in the filter was made by a key of its generation or a later one. */
  ghost predicate Explained(ps: Params, f: Filter, keys: seq<Key>, cur: nat)
    requires Valid(ps, f)
  {
    forall p: nat, b: bv64 :: 2 * p + 1 < ps.words && b < 64 && Tag(f, p, b) != 0 ==> WrittenBy(ps, keys, cur, Age(f.gen, Tag(f, p, b)), p, b)
  }

  lemma WrittenLater(ps: Params, keys: seq<Key>, key: Key, cur: nat, age: nat, p: nat, b: bv64)
    requires ps.Ok() && WrittenBy(ps, keys, cur, age, p, b)
    ensures WrittenBy(ps, keys + [key], cur, age, p, b) && WrittenBy(ps, keys + [key], cur + 1, age + 1, p, b)
  {
    var i :| 0 <= i < |keys| && i >= (cur - age) * ps.per && Placed(ps, keys[i], ps.funcs, p, b);
    assert (keys + [key])[i] == keys[i] && cur + 1 - (age + 1) == cur - age;
  }

  lemma RollExplained(ps: Params, f: Filter, keys: seq<Key>, cur: nat, key: Key, p: nat, b: bv64)
    requires Valid(ps, f) && Explained(ps, f, keys, cur) && 2 * p + 1 < ps.words && b < 64
    ensures var g := Roll(ps, f); var now := if f.entries == ps.per then cur + 1 else cur;
            Valid(ps, g) && (Tag(g, p, b) != 0 ==> WrittenBy(ps, keys + [key], now, Age(g.gen, Tag(g, p, b)), p, b))
  {
    hide Tag, Wiped, WrittenBy;
    var g := Roll(ps, f);
    if f.entries == ps.per {
      WipedTags(f, g.gen, p, b);
      TagOnly(f, g, p, b);
    }
    if Tag(g, p, b) != 0 {
      WrittenLater(ps, keys, key, cur, Age(f.gen, Tag(f, p, b)), p, b);
    }
  }

  lemma InsertExplained(ps: Params, f: Filter, keys: seq<Key>, cur: nat, key: Key)
    requires Inv(ps, f, keys, cur) && Explained(ps, f, keys, cur)
    ensures var g := Insert(ps, f, key); var now := if f.entries == ps.per then cur + 1 else cur;
            Valid(ps, g) && Explained(ps, g, keys + [key], now)
  {
    hide MarkAll, Wiped, Alive, Tag, WrittenBy;
    InsertValid(ps, f, key);
    var g := Roll(ps, f);
    var start := g.(entries := g.entries + 1);
    var now := if f.entries == ps.per then cur + 1 else cur;
    var t := Insert(ps, f, key);
    MarkAllGen(ps, start, key);
    forall p: nat, b: bv64 | 2 * p + 1 < ps.words && b < 64 && Tag(t, p, b) != 0
      ensures WrittenBy(ps, keys + [key], now, Age(t.gen, Tag(t, p, b)), p, b)
    {
      MarkAllTags(ps, start, key, ps.funcs, p, b);
      TagOnly(g, start, p, b);
      if Placed(ps, key, ps.funcs, p, b) {
        assert (cur + 1) * ps.per == cur * ps.per + ps.per;
        NewlyWritten(ps, keys, key, now, p, b);
      } else {
        RollExplained(ps, f, keys, cur, key, p, b);
      }
    }
  }

  lemma NewlyWritten(ps: Params, keys: seq<Key>, key: Key, now: nat, p: nat, b: bv64)
    requires ps.Ok() && |keys| >= now * ps.per && Placed(ps, key, ps.funcs, p, b)
    ensures WrittenBy(ps, keys + [key], now, 0, p, b)
  {
    assert (keys + [key])[|keys|] == key && (now - 0) * ps.per == now * ps.per;
  }

  lemma {:induction false} InsertAllExplained(ps: Params, keys: seq<Key>) returns (cur: nat)
    requires ps.Ok()
    ensures Inv(ps, InsertAll(ps, keys), keys, cur) && Explained(ps, InsertAll(ps, keys), keys, cur)
  {
    hide Inv, Explained, Insert;
    if keys == [] {
      cur := InsertAllKeeps(ps, keys);
      EmptyExplained(ps, cur);
    } else {
      var before, key := keys[..|keys| - 1], keys[|keys| - 1];
      cur := InsertAllExplained(ps, before);
      var f := InsertAll(ps, before);
      InsertKeeps(ps, f, before, cur, key);
      InsertExplained(ps, f, before, cur, key);
      if f.entries == ps.per { cur := cur + 1; }
      assert before + [key] == keys;
    }
  }

  lemma EmptyExplained(ps: Params, cur: nat)
    requires ps.Ok()
    ensures Valid(ps, Empty(ps)) && Explained(ps, Empty(ps), [], cur)
  {
    hide WrittenBy;
    forall p: nat, b: bv64 | 2 * p + 1 < ps.words && b < 64 ensures Tag(Empty(ps), p, b) == 0 { NoBits(b); }
  }

  lemma NoBits(b: bv64)
    requires b < 64
    ensures !Bit(0, b)
  {}

  /** The first key that the filter still knows: those of the current generation and of the two before it. */
  function Oldest(per: nat, n: nat): int
    requires per > 0
  {
    if n == 0 then 0 else ((n - 1) / per - 2) * per
  }

  lemma OldestIs(per: nat, n: nat, cur: nat, entries: nat)
    requires per > 0 && n == cur * per + entries && entries <= per && (n > 0 ==> entries >= 1)
    ensures n > 0 ==> Oldest(per, n) == (cur - 2) * per
  {
    if n > 0 { DivModUnique(n - 1, per, cur, entries - 1); }
  }

  /** Some key that the filter still knows points to where the hash does. */
  ghost predicate Covered(ps: Params, keys: seq<Key>, h: bv32)
    requires ps.Ok()
  {
    exists i :: 0 <= i < |keys| && i >= Oldest(ps.per, |keys|) && Placed(ps, keys[i], ps.funcs, PairOf(ps, h), BitOf(h))
  }

  /** After any insertions a key is found if and only if each of its places is a place of some key of the last three
    * generations, the current one included.
    */
  lemma ContainsIff(ps: Params, keys: seq<Key>, key: Key)
    requires ps.Ok()
    ensures Contains(ps, InsertAll(ps, keys), key) <==> forall n :: 0 <= n < ps.funcs ==> Covered(ps, keys, ps.hash(n, key))
  {
    hide InsertAll, Tag, Inv;
    var f := InsertAll(ps, keys);
    forall n | 0 <= n < ps.funcs
      ensures var h := ps.hash(n, key); Tag(f, PairOf(ps, h), BitOf(h)) != 0 <==> Covered(ps, keys, h)
    {
      MarkedIff(ps, keys, ps.hash(n, key));
    }
  }

  lemma MarkedIff(ps: Params, keys: seq<Key>, h: bv32)
    requires ps.Ok()
    ensures Tag(InsertAll(ps, keys), PairOf(ps, h), BitOf(h)) != 0 <==> Covered(ps, keys, h)
  {
    hide InsertAll, Tag, Alive;
    var cur := InsertAllExplained(ps, keys);
    var f := InsertAll(ps, keys);
    var p, b := PairOf(ps, h), BitOf(h);
    OldestIs(ps.per, |keys|, cur, f.entries);
    if Tag(f, p, b) != 0 {
      var age := Age(f.gen, Tag(f, p, b));
      assert WrittenBy(ps, keys, cur, age, p, b);
      var i :| 0 <= i < |keys| && i >= (cur - age) * ps.per && Placed(ps, keys[i], ps.funcs, p, b);
      MulOrder(cur - 2, cur - age, ps.per);
    }
    if Covered(ps, keys, h) {
      var i :| 0 <= i < |keys| && i >= Oldest(ps.per, |keys|) && Placed(ps, keys[i], ps.funcs, p, b);
      assert i >= (cur - 2) * ps.per;
      assert Alive(ps, f, keys[i], 2);
      PlaceAlive(ps, f, keys[i], p, b);
    }
  }

  lemma PlaceAlive(ps: Params, f: Filter, key: Key, p: nat, b: bv64)
    requires Valid(ps, f) && Alive(ps, f, key, 2) && Placed(ps, key, ps.funcs, p, b) && 2 * p + 1 < ps.words && b < 64
    ensures Tag(f, p, b) != 0
  {
    hide Tag;
    var n :| 0 <= n < ps.funcs && PointsTo(ps, ps.hash(n, key), p, b);
    assert AliveAt(ps, f, ps.hash(n, key), 2);
  }

  /** A fresh or reset filter that hashes at all contains nothing. */
  lemma FreshContainsNothing(ps: Params, key: Key)
    requires ps.Ok() && ps.funcs >= 1
    ensures Valid(ps, Empty(ps)) && !Contains(ps, Empty(ps), key)
  {
    assert InsertAll(ps, []) == Empty(ps);
    ContainsIff(ps, [], key);
    assert !Covered(ps, [], ps.hash(0, key));
  }
}
