/** The objects behind `Coins`: a coin database and caches stacked over it, updated in place.
  * Every method is specified by the function of the same name on the stack it belongs to.
  */
module CoinsCache {
  import opened Prelude
  import opened Coins

  /** The outputs and inputs of a transaction that the coin cache looks at. */
  datatype Tx = Tx(id: int, vin: seq<OutPoint>, vout: seq<(int, seq<nat>)>) {
    predicate IsCoinBase() { |vin| == 1 && vin[0] == OutPoint(NULL_HASH, 0xffff_ffff) }

    function Output(i: nat, height: nat): Coin
      requires i < |vout|
    {
      Coin(vout[i].0, vout[i].1, height, IsCoinBase())
    }
  }

  // ---------------------------------------------------------------- memory accounting

  /** Bytes held by the scripts of all entries, for a given cost of one script. */
  ghost function Usage(m: Entries, cost: seq<nat> -> nat): nat {
    if m == map[] then 0 else var o :| o in m; cost(m[o].coin.script) + Usage(m - {o}, cost)
  }

  lemma {:induction false} UsageRemove(m: Entries, cost: seq<nat> -> nat, o: OutPoint)
    requires o in m
    ensures Usage(m, cost) == cost(m[o].coin.script) + Usage(m - {o}, cost)
    decreases |m|
  {
    var p :| p in m && Usage(m, cost) == cost(m[p].coin.script) + Usage(m - {p}, cost);
    if p != o {
      UsageRemove(m - {p}, cost, o);
      UsageRemove(m - {o}, cost, p);
      assert m - {p} - {o} == m - {o} - {p};
    }
  }

  lemma UsageUpdate(m: Entries, cost: seq<nat> -> nat, o: OutPoint, e: Entry)
    ensures Usage(m[o := e], cost) == cost(e.coin.script) + Usage(m - {o}, cost)
    ensures o in m ==> Usage(m, cost) == cost(m[o].coin.script) + Usage(m - {o}, cost)
    ensures o !in m ==> Usage(m - {o}, cost) == Usage(m, cost)
  {
    UsageRemove(m[o := e], cost, o);
    assert m[o := e] - {o} == m - {o};
    if o in m {
      UsageRemove(m, cost, o);
    } else {
      assert m - {o} == m;
    }
  }

  // ---------------------------------------------------------------- values read through a stack

  lemma {:induction false} FetchView(s: Stack, o: OutPoint, p: OutPoint)
    ensures View(Fetch(s, o), p) == View(s, p)
  {
    if s.Cache? && o !in s.entries {
      FetchView(s.base, o, p);
    }
  }

  /** Cache the best block on the way up, as `GetBestBlock` does. */
  function FillBest(s: Stack): Stack {
    if s.Db? || s.best != NULL_HASH then s
    else Cache(s.entries, BestBlock(s.base), FillBest(s.base))
  }

  /** Asking for the best block changes no answer and makes the next flush keep it. */
  lemma {:induction false} FillBestKeeps(s: Stack)
    ensures BestBlock(FillBest(s)) == BestBlock(s) && SameView(s, FillBest(s))
    ensures Inv(s) ==> Inv(FillBest(s))
    ensures s.Cache? ==> FillBest(s).Cache? && FlushKeepsBest(FillBest(s))
  {
    if s.Cache? && s.best == NULL_HASH {
      FillBestKeeps(s.base);
      if Inv(s) {
        Rebase(s, FillBest(s.base));
      }
    }
  }

  /** The value `AccessCoin` exposes: a missing coin counts as -1. */
  function InputValue(s: Stack, o: OutPoint): int {
    match View(s, o) case None => -1 case Some(coin) => coin.value
  }

  function ValueIn(s: Stack, vin: seq<OutPoint>): int {
    if vin == [] then 0 else ValueIn(s, vin[..|vin| - 1]) + InputValue(s, vin[|vin| - 1])
  }

  function FlatValueIn(f: map<OutPoint, Coin>, vin: seq<OutPoint>): int
    requires forall o :: o in vin ==> o in f
  {
    if vin == [] then 0 else FlatValueIn(f, vin[..|vin| - 1]) + f[vin[|vin| - 1]].value
  }

  /** Inputs that are all present are worth what the flat map says. */
  lemma {:induction false} ValueInRefines(s: Stack, f: map<OutPoint, Coin>, vin: seq<OutPoint>)
    requires Agrees(s, f) && forall o :: o in vin ==> View(s, o).Some?
    ensures forall o :: o in vin ==> o in f
    ensures ValueIn(s, vin) == FlatValueIn(f, vin)
  {
    forall o | o in vin ensures o in f && View(s, o) == Some(f[o]) {}
    if vin != [] {
      assert forall o :: o in vin[..|vin| - 1] ==> o in vin;
      ValueInRefines(s, f, vin[..|vin| - 1]);
    }
  }

  /** `AddCoins`: every output in turn, stopping where `AddCoin` throws. */
  function AddOutputs(s: Stack, tx: Tx, height: nat, upTo: nat): Option<Stack>
    requires s.Cache? && upTo <= |tx.vout|
    ensures AddOutputs(s, tx, height, upTo).Some? ==> AddOutputs(s, tx, height, upTo).value.Cache?
  {
    if upTo == 0 then Some(s)
    else match AddOutputs(s, tx, height, upTo - 1)
         case None => None
         case Some(t) => Add(t, OutPoint(tx.id, upTo - 1), tx.Output(upTo - 1, height), tx.IsCoinBase())
  }

  // ---------------------------------------------------------------- walking a batch in any order

  /** `todo` and `done` partition the batch. */
  ghost predicate Split(batch: Entries, todo: Entries, done: Entries) {
    forall o :: Find(batch, o) == (if o in todo then Some(todo[o]) else Find(done, o)) && (o in todo ==> o !in done)
  }

  lemma SplitStep(batch: Entries, todo: Entries, done: Entries, o: OutPoint)
    requires Split(batch, todo, done) && o in todo
    ensures Split(batch, todo - {o}, done[o := todo[o]])
  {
    forall p ensures Find(batch, p) == if p in todo then Some(todo[p]) else Find(done, p) {}
  }

  lemma WriteDbStep(coins: map<OutPoint, Coin>, done: Entries, o: OutPoint, e: Entry)
    requires o !in done
    ensures var w := WriteDb(coins, done);
            WriteDb(coins, done[o := e]) == if !e.dirty then w else if e.coin.IsSpent() then w - {o} else w[o := e.coin]
  {
    var w, v := WriteDb(coins, done), WriteDb(coins, done[o := e]);
    forall p ensures p != o ==> Find(v, p) == Find(w, p) {}
    forall p ensures Find(v, p) == Find(if !e.dirty then w else if e.coin.IsSpent() then w - {o} else w[o := e.coin], p) {}
    SameFind(v, if !e.dirty then w else if e.coin.IsSpent() then w - {o} else w[o := e.coin]);
  }

  lemma MergeStep(ours: Entries, done: Entries, o: OutPoint, e: Entry)
    requires o !in done
    ensures var m := Merge(ours, done);
            var r := MergeEntry(Find(m, o), Some(e));
            Find(m, o) == Find(ours, o) && Merge(ours, done[o := e]) == if r.Some? then m[o := r.value] else m - {o}
  {
    var m := Merge(ours, done);
    var r := MergeEntry(Find(m, o), Some(e));
    assert Find(m, o) == Find(ours, o);
    SameFind(Merge(ours, done[o := e]), if r.Some? then m[o := r.value] else m - {o});
  }

  lemma SameFind<K, V>(a: map<K, V>, b: map<K, V>)
    requires forall k :: Find(a, k) == Find(b, k)
    ensures a == b
  {
    forall k ensures (k in a <==> k in b) && (k in a ==> a[k] == b[k]) {
      assert Find(a, k) == Find(b, k);
    }
  }

  // ---------------------------------------------------------------- the objects

  class CoinsDb {
    var coins: map<OutPoint, Coin>
    var best: int

    method GetCoin(o: OutPoint) returns (r: Option<Coin>)
      ensures r == View(Db(coins, best), o)
    {
      r := if o in coins then Some(coins[o]) else None;
    }

    method BatchWrite(batch: Entries, hash: int)
      modifies this
      ensures Some(Db(coins, best)) == Coins.BatchWrite(old(Db(coins, best)), batch, hash)
    {
      var todo := batch;
      ghost var done: Entries := map[];
      while todo != map[]
        invariant Split(batch, todo, done) && best == old(best)
        invariant coins == WriteDb(old(coins), done)
        decreases todo.Keys
      {
        var o :| o in todo;
        WriteDbStep(old(coins), done, o, todo[o]);
        if todo[o].dirty {
          if todo[o].coin.IsSpent() {
            coins := coins - {o};
          } else {
            coins := coins[o := todo[o].coin];
          }
        }
        SplitStep(batch, todo, done, o);
        todo, done := todo - {o}, done[o := todo[o]];
      }
      SameFind(done, batch);
      if hash != NULL_HASH {
        best := hash;
      }
    }
  }

  datatype Base = DbBase(db: CoinsDb) | CacheBase(cache: CoinsViewCache)

  class CoinsViewCache {
    const base: Base
    const cost: seq<nat> -> nat
    var entries: Entries
    var best: int
    var usage: int

    ghost const depth: nat
    ghost const repr: set<object>

    /** The shape of the stack, fixed when it is built. */
    ghost predicate WellFormed()
      decreases depth
    {
      && this in repr
      && match base
         case DbBase(db) => repr == {this, db}
         case CacheBase(c) => c.depth < depth && c.WellFormed() && this !in c.repr && repr == {this} + c.repr
    }

    ghost function Value(): (s: Stack)
      requires WellFormed()
      reads repr
      ensures s.Cache?
      decreases depth
    {
      Cache(entries, best, match base case DbBase(db) => Db(db.coins, db.best) case CacheBase(c) => c.Value())
    }

    ghost predicate UsageExact()
      reads this
    {
      usage == Usage(entries, cost)
    }

    constructor (base: Base, cost: seq<nat> -> nat)
      requires base.CacheBase? ==> base.cache.WellFormed()
      requires cost([]) == 0
      ensures WellFormed() && UsageExact() && this.base == base && this.cost == cost
      ensures fresh(repr - (match base case DbBase(db) => {db} case CacheBase(c) => c.repr))
      ensures Value() == Cache(map[], NULL_HASH, match base case DbBase(db) => Db(db.coins, db.best) case CacheBase(c) => c.Value())
    {
      this.base := base;
      this.cost := cost;
      entries, best, usage := map[], NULL_HASH, 0;
      depth := match base case DbBase(_) => 0 case CacheBase(c) => c.depth + 1;
      repr := {this} + match base case DbBase(db) => {db as object} case CacheBase(c) => c.repr;
    }

    method BaseGetCoin(o: OutPoint) returns (r: Option<Coin>)
      requires WellFormed()
      modifies repr - {this}
      ensures r == View(old(Value().base), o)
      ensures Value() == old(Value()).(base := Fetch(old(Value().base), o))
      decreases depth, 0
    {
      match base
      case DbBase(db) => r := db.GetCoin(o);
      case CacheBase(c) => r := c.GetCoin(o);
    }

    method FetchCoin(o: OutPoint) returns (found: bool)
      requires WellFormed()
      modifies repr
      ensures Value() == Fetch(old(Value()), o) && found == (o in entries)
      ensures old(UsageExact()) ==> UsageExact()
      decreases depth, 1
    {
      if o in entries {
        return true;
      }
      var r := BaseGetCoin(o);
      match r
      case None => found := false;
      case Some(coin) =>
        UsageUpdate(entries, cost, o, Entry(coin, false, coin.IsSpent()));
        entries := entries[o := Entry(coin, false, coin.IsSpent())];
        usage := usage + cost(coin.script);
        found := true;
    }

    method GetCoin(o: OutPoint) returns (r: Option<Coin>)
      requires WellFormed()
      modifies repr
      ensures Value() == Fetch(old(Value()), o) && r == View(old(Value()), o)
      ensures old(UsageExact()) ==> UsageExact()
      decreases depth, 2
    {
      var found := FetchCoin(o);
      FetchView(old(Value()), o, o);
      r := if found && !entries[o].coin.IsSpent() then Some(entries[o].coin) else None;
    }

    method AddCoin(o: OutPoint, coin: Coin, overwrite: bool) returns (threw: bool)
      requires WellFormed() && !coin.IsSpent()
      modifies this
      ensures threw <==> Add(old(Value()), o, coin, overwrite) == None
      ensures Value() == if threw then old(Value()) else Add(old(Value()), o, coin, overwrite).value
      ensures !threw && old(UsageExact()) ==> UsageExact()
    {
      if coin.IsUnspendable() {
        return false;
      }
      var inserted := o !in entries;
      var was := if inserted then Entry(EMPTY_COIN, false, false) else entries[o];
      var asFresh := false;
      if !inserted {
        usage := usage - cost(was.coin.script);
      }
      if !overwrite {
        if !was.coin.IsSpent() {
          return true;
        }
        asFresh := !was.dirty;
      }
      UsageUpdate(entries, cost, o, Entry(coin, true, was.freshFlag || asFresh));
      entries := entries[o := Entry(coin, true, was.freshFlag || asFresh)];
      usage := usage + cost(coin.script);
      threw := false;
    }

    method SpendCoin(o: OutPoint) returns (found: bool, moved: Coin)
      requires WellFormed() && cost([]) == 0
      modifies repr
      ensures Value() == Spend(old(Value()), o)
      ensures found == (o in Fetch(old(Value()), o).entries)
      ensures found ==> Unspent(moved) == View(old(Value()), o)
      ensures old(UsageExact()) ==> UsageExact()
    {
      found := FetchCoin(o);
      moved := EMPTY_COIN;
      if !found {
        return;
      }
      FetchView(old(Value()), o, o);
      moved := entries[o].coin;
      UsageUpdate(entries, cost, o, Entry(EMPTY_COIN, true, false));
      usage := usage - cost(moved.script);
      if entries[o].freshFlag {
        entries := entries - {o};
      } else {
        entries := entries[o := Entry(EMPTY_COIN, true, false)];
      }
    }

    method HaveCoin(o: OutPoint) returns (have: bool)
      requires WellFormed()
      modifies repr
      ensures Value() == Fetch(old(Value()), o) && have == View(old(Value()), o).Some?
    {
      var r := GetCoin(o);
      have := r.Some?;
    }

    /** The coin in view, or a spent one. */
    method AccessCoin(o: OutPoint) returns (coin: Coin)
      requires WellFormed()
      modifies repr
      ensures Value() == Fetch(old(Value()), o) && Unspent(coin) == View(old(Value()), o)
      ensures coin.value == InputValue(old(Value()), o)
    {
      var found := FetchCoin(o);
      FetchView(old(Value()), o, o);
      coin := if found then entries[o].coin else EMPTY_COIN;
    }

    method Uncache(o: OutPoint)
      requires WellFormed()
      modifies this
      ensures Value() == Coins.Uncache(old(Value()), o)
      ensures old(UsageExact()) ==> UsageExact()
    {
      if o in entries && !entries[o].dirty && !entries[o].freshFlag {
        UsageUpdate(entries, cost, o, entries[o]);
        usage := usage - cost(entries[o].coin.script);
        entries := entries - {o};
      }
    }

    /** One round of `BatchWrite`; `threw` is the "FRESH flag misapplied" exception. */
    method WriteEntry(o: OutPoint, e: Entry) returns (threw: bool)
      modifies `entries, `usage
      ensures threw <==> Misapplied(old(Find(entries, o)), Some(e))
      ensures !threw ==> var r := MergeEntry(old(Find(entries, o)), Some(e));
                         entries == if r.Some? then old(entries)[o := r.value] else old(entries) - {o}
      ensures threw ==> entries == old(entries)
      ensures !threw && old(UsageExact()) ==> UsageExact()
    {
      UsageUpdate(entries, cost, o, e);
      threw := false;
      if !e.dirty {
        SameFind(entries, if o in entries then entries[o := entries[o]] else entries - {o});
      } else if o !in entries {
        if !(e.freshFlag && e.coin.IsSpent()) {
          UsageUpdate(entries, cost, o, Entry(e.coin, true, e.freshFlag));
          entries := entries[o := Entry(e.coin, true, e.freshFlag)];
          usage := usage + cost(e.coin.script);
        } else {
          SameFind(entries, entries - {o});
        }
      } else if e.freshFlag && !entries[o].coin.IsSpent() {
        threw := true;
      } else if entries[o].freshFlag && e.coin.IsSpent() {
        usage := usage - cost(entries[o].coin.script);
        entries := entries - {o};
      } else {
        UsageUpdate(entries, cost, o, Entry(e.coin, true, entries[o].freshFlag));
        usage := usage - cost(entries[o].coin.script);
        entries := entries[o := Entry(e.coin, true, entries[o].freshFlag)];
        usage := usage + cost(e.coin.script);
      }
    }

    method WriteEntries(batch: Entries) returns (threw: bool)
      modifies `entries, `usage
      ensures threw <==> Throws(old(entries), batch)
      ensures !threw ==> entries == Merge(old(entries), batch)
      ensures !threw && old(UsageExact()) ==> UsageExact()
    {
      var todo := batch;
      ghost var done: Entries := map[];
      SameFind(entries, Merge(entries, done));
      while todo != map[]
        invariant Split(batch, todo, done)
        invariant entries == Merge(old(entries), done)
        invariant forall o :: o in done ==> !Misapplied(Find(old(entries), o), Some(done[o]))
        invariant old(UsageExact()) ==> UsageExact()
        decreases todo.Keys
      {
        var o :| o in todo;
        MergeStep(old(entries), done, o, todo[o]);
        threw := WriteEntry(o, todo[o]);
        if threw {
          assert Find(batch, o) == Some(todo[o]);
          return;
        }
        SplitStep(batch, todo, done, o);
        todo, done := todo - {o}, done[o := todo[o]];
      }
      SameFind(done, batch);
      threw := false;
    }

    method BatchWrite(batch: Entries, hash: int) returns (threw: bool)
      requires WellFormed()
      modifies this
      ensures threw <==> Coins.BatchWrite(old(Value()), batch, hash) == None
      ensures !threw ==> Some(Value()) == Coins.BatchWrite(old(Value()), batch, hash)
      ensures !threw && old(UsageExact()) ==> UsageExact()
    {
      threw := WriteEntries(batch);
      if !threw {
        best := hash;
      }
    }

    method Flush() returns (threw: bool)
      requires WellFormed()
      modifies repr
      ensures threw <==> Coins.Flush(old(Value())) == None
      ensures !threw ==> Some(Value()) == Coins.Flush(old(Value())) && UsageExact()
    {
      threw := false;
      match base {
        case DbBase(db) => db.BatchWrite(entries, best);
        case CacheBase(c) => threw := c.BatchWrite(entries, best);
      }
      if !threw {
        entries := map[];
        usage := 0;
      }
    }

    method GetBestBlock() returns (hash: int)
      requires WellFormed()
      modifies repr
      ensures Value() == FillBest(old(Value())) && hash == BestBlock(old(Value()))
      decreases depth
    {
      if best == NULL_HASH {
        match base {
          case DbBase(db) => best := db.best;
          case CacheBase(c) => best := c.GetBestBlock();
        }
      }
      hash := best;
    }

    method SetBestBlock(hash: int)
      requires WellFormed()
      modifies `best
      ensures Value() == old(Value()).(best := hash)
    {
      best := hash;
    }

    /** True exactly when every input of a non-coinbase transaction is unspent in the view. */
    method HaveInputs(tx: Tx) returns (have: bool)
      requires WellFormed()
      modifies repr
      ensures have <==> tx.IsCoinBase() || forall o :: o in tx.vin ==> View(old(Value()), o).Some?
      ensures SameView(old(Value()), Value()) && (Inv(old(Value())) ==> Inv(Value()))
    {
      if tx.IsCoinBase() {
        return true;
      }
      for i := 0 to |tx.vin|
        invariant SameView(old(Value()), Value()) && (Inv(old(Value())) ==> Inv(Value()))
        invariant forall o :: o in tx.vin[..i] ==> View(old(Value()), o).Some?
      {
        ghost var before := Value();
        var ok := HaveCoin(tx.vin[i]);
        FetchSame(before, tx.vin[i]);
        if !ok {
          assert tx.vin[i] in tx.vin;
          return false;
        }
      }
      assert tx.vin[..|tx.vin|] == tx.vin;
      have := true;
    }

    method GetValueIn(tx: Tx) returns (sum: int)
      requires WellFormed()
      modifies repr
      ensures sum == if tx.IsCoinBase() then 0 else ValueIn(old(Value()), tx.vin)
      ensures SameView(old(Value()), Value()) && (Inv(old(Value())) ==> Inv(Value()))
    {
      sum := 0;
      if tx.IsCoinBase() {
        return;
      }
      for i := 0 to |tx.vin|
        invariant SameView(old(Value()), Value()) && (Inv(old(Value())) ==> Inv(Value()))
        invariant sum == ValueIn(old(Value()), tx.vin[..i])
      {
        ghost var before := Value();
        var coin := AccessCoin(tx.vin[i]);
        FetchSame(before, tx.vin[i]);
        sum := sum + coin.value;
        assert tx.vin[..i + 1][..i] == tx.vin[..i];
      }
      assert tx.vin[..|tx.vin|] == tx.vin;
    }

    method AddCoins(tx: Tx, height: nat) returns (threw: bool)
      requires WellFormed() && forall i :: 0 <= i < |tx.vout| ==> tx.vout[i].0 != -1
      modifies this
      ensures threw <==> AddOutputs(old(Value()), tx, height, |tx.vout|) == None
      ensures !threw ==> Some(Value()) == AddOutputs(old(Value()), tx, height, |tx.vout|)
    {
      threw := false;
      for i := 0 to |tx.vout|
        invariant Some(Value()) == AddOutputs(old(Value()), tx, height, i)
      {
        threw := AddCoin(OutPoint(tx.id, i), tx.Output(i, height), tx.IsCoinBase());
        if threw {
          AddOutputsStop(old(Value()), tx, height, i + 1, |tx.vout|);
          return;
        }
      }
    }
  }

  lemma {:induction false} AddOutputsStop(s: Stack, tx: Tx, height: nat, i: nat, n: nat)
    requires s.Cache? && i <= n <= |tx.vout| && AddOutputs(s, tx, height, i) == None
    ensures AddOutputs(s, tx, height, n) == None
    decreases n
  {
    if i < n {
      AddOutputsStop(s, tx, height, i, n - 1);
    }
  }

  lemma FetchSame(s: Stack, o: OutPoint)
    ensures SameView(s, Fetch(s, o)) && (Inv(s) ==> Inv(Fetch(s, o)))
  {
    forall p ensures View(Fetch(s, o), p) == View(s, p) {
      FetchView(s, o, p);
    }
    if Inv(s) {
      FetchKeeps(s, o);
    }
  }
}
