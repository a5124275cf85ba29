/** What the DIRTY and FRESH flags of the coin caches are for: steps that undo each other leave nothing to write down. */
module CoinsFlags {
  import opened Prelude
  import opened Coins
  import opened CoinsCache

  /** Dropping a coin that was only fetched undoes the fetch. */
  lemma UncacheUndoesFetch(s: Stack, o: OutPoint)
    requires s.Cache? && Inv(s) && o !in s.entries
    ensures Fetch(s, o).Cache? && Uncache(Fetch(s, o), o).entries == s.entries
  {
    ViewIsUnspent(s.base, o);
  }

  /** A coin that is added and spent before a flush leaves no trace, unless an earlier spend still has to be written down. */
  lemma SpendUndoesAdd(s: Stack, o: OutPoint, coin: Coin)
    requires s.Cache? && Inv(s) && !coin.IsSpent() && !coin.IsUnspendable() && View(s, o) == None
    ensures Add(s, o, coin, false).Some?
    ensures var t := Spend(Add(s, o, coin, false).value, o);
            if o !in s.entries then t == s
            else if s.entries[o].dirty && !s.entries[o].freshFlag then
              t == s.(entries := s.entries[o := Entry(EMPTY_COIN, true, false)])
            else t == s.(entries := s.entries - {o})
  {
    hide Inv, View;
    AddKeepsIff(s, o, coin, false);
    var a := Add(s, o, coin, false).value;
    SpendCached(a, o);
    if o in s.entries {
      CachedIsSpent(s, o);
      assert s.entries[o := a.entries[o]] - {o} == s.entries - {o};
    } else {
      assert s.entries[o := a.entries[o]] - {o} == s.entries;
    }
  }

  lemma SpendCached(s: Stack, o: OutPoint)
    requires s.Cache? && o in s.entries
    ensures Spend(s, o) == s.(entries := if s.entries[o].freshFlag then s.entries - {o} else s.entries[o := Entry(EMPTY_COIN, true, false)])
  {}

  lemma CachedIsSpent(s: Stack, o: OutPoint)
    requires s.Cache? && o in s.entries && View(s, o) == None
    ensures s.entries[o].coin.IsSpent()
  {}

  /** The same with a flush in between: a cache that takes over a new coin from above still knows that it is new. */
  lemma SpendUndoesFlushedAdd(s: Stack, o: OutPoint, coin: Coin)
    requires s.Cache? && s.base.Cache? && Inv(s) && !coin.IsSpent() && !coin.IsUnspendable()
    requires View(s, o) == None && o !in s.entries && o !in s.base.entries
    ensures Add(s, o, coin, false).Some? && Flush(Add(s, o, coin, false).value).Some?
    ensures var c := Flush(Add(s, o, coin, false).value).value.base;
            c.Cache? && o in c.entries && c.entries[o] == Entry(coin, true, true) && o !in Spend(c, o).entries
  {
    AddKeepsIff(s, o, coin, false);
    var a := Add(s, o, coin, false).value;
    FlushKeeps(a);
    assert Find(a.entries, o) == Some(Entry(coin, true, true));
    var c := Flush(a).value.base;
    assert c.entries == Merge(s.base.entries, a.entries);
    assert Find(c.entries, o) == MergeEntry(None, Some(Entry(coin, true, true)));
  }

  /** A coin that a cache added and the cache above it spends is gone from both after a flush. */
  lemma SpendAboveUndoesAdd(base: Stack, best: int, o: OutPoint, coin: Coin)
    requires base.Cache? && Inv(base) && !coin.IsSpent() && !coin.IsUnspendable() && View(base, o) == None && o !in base.entries
    ensures Add(base, o, coin, false).Some?
    ensures var s := Spend(Cache(map[], best, Add(base, o, coin, false).value), o);
            s.Cache? && Flush(s).Some? && Flush(s).value.base.Cache? && Flush(s).value.base.entries == base.entries
  {
    AddKeepsIff(base, o, coin, false);
    var a := Add(base, o, coin, false).value;
    var c := Cache(map[], best, a);
    assert Inv(c);
    SpendKeeps(c, o);
    FetchKeeps(c, o);
    var s := Spend(c, o);
    FlushKeeps(s);
    SpentAbove(c, a, o, coin);
    var m := Merge(a.entries, s.entries);
    forall p ensures Find(m, p) == Find(base.entries, p) { assert Find(m, p) == MergeEntry(Find(a.entries, p), Find(s.entries, p)); }
    SameEntries(m, base.entries);
  }

  lemma SpentAbove(c: Stack, a: Stack, o: OutPoint, coin: Coin)
    requires c.Cache? && c.entries == map[] && c.base == a && a.Cache? && !coin.IsSpent() && o in a.entries && a.entries[o] == Entry(coin, true, true)
    ensures Spend(c, o) == c.(entries := map[o := Entry(EMPTY_COIN, true, false)])
  {
    assert View(a, o) == Some(coin);
    assert Fetch(c, o) == Cache(map[o := Entry(coin, false, false)], c.best, a);
  }

  lemma SameEntries(a: Entries, b: Entries)
    requires forall p :: Find(a, p) == Find(b, p)
    ensures a == b
  {
    forall p ensures p in a <==> p in b { assert Find(a, p) == Find(b, p); }
    forall p | p in a ensures a[p] == b[p] { assert Find(a, p) == Find(b, p); }
  }

  /** A new coin that the cache above replaces stays new: its FRESH flag survives the merge. */
  lemma FreshStays(ours: Entry, theirs: Entry)
    requires ours.freshFlag && theirs.dirty
    ensures MergeEntry(Some(ours), Some(theirs))
            == if theirs.coin.IsSpent() then None else Some(Entry(theirs.coin, true, true))
  {}

  /** A spent coin of the base is remembered until it is written down, and the flush then removes it. */
  lemma SpendIsWrittenDown(s: Stack, o: OutPoint)
    requires s.Cache? && s.base.Db? && Inv(s) && o in s.base.coins && View(s, o).Some?
    ensures Spend(s, o).Cache? && o in Spend(s, o).entries && Spend(s, o).entries[o] == Entry(EMPTY_COIN, true, false)
    ensures Flush(Spend(s, o)).Some? && Flush(Spend(s, o)).value.base.Db? && o !in Flush(Spend(s, o)).value.base.coins
  {
    FetchKeeps(s, o);
    SpendKeeps(s, o);
    var t := Spend(s, o);
    FlushKeeps(t);
    assert View(Flush(t).value.base, o) == View(t, o);
  }

  // ---------------------------------------------------------------- outputs of a transaction

  /** Output `i` of a transaction as a coin; a coinbase has the one input that spends nothing. */
  function OutputCoin(tx: Tx, i: nat, height: nat): Coin
    requires i < |tx.vout|
  {
    Coin(tx.vout[i].0, tx.vout[i].1, height, |tx.vin| == 1 && tx.vin[0] == OutPoint(0, 0xffff_ffff))
  }

  /** The script can never be met: it begins with OP_RETURN, or is too long. */
  predicate NeverSpent(script: seq<nat>) { (|script| > 0 && script[0] == 0x6a) || |script| > 10_000 }

  /** After `AddCoins` every output of the transaction is in view with its index, height and coinbase mark, unless its
    * script cannot be spent; everything else is as it was.
    */
  lemma {:induction false} AddOutputsView(s: Stack, tx: Tx, height: nat, n: nat, p: OutPoint)
    requires s.Cache? && n <= |tx.vout| && (forall i :: 0 <= i < |tx.vout| ==> tx.vout[i].0 != -1)
    requires AddOutputs(s, tx, height, n).Some?
    ensures View(AddOutputs(s, tx, height, n).value, p)
            == if p.hash == tx.id && p.n < n && !NeverSpent(tx.vout[p.n].1) then Some(OutputCoin(tx, p.n, height)) else View(s, p)
  {
    if n > 0 {
      AddOutputsView(s, tx, height, n - 1, p);
      var t := AddOutputs(s, tx, height, n - 1).value;
      AddView(t, OutPoint(tx.id, n - 1), tx.Output(n - 1, height), tx.IsCoinBase(), p);
    }
  }
}
