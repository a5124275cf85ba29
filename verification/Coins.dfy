/** The layered unspent-coin cache, as a value.
  *
  * A `Stack` is a database at the bottom and any number of write-back caches above it.
  * Each operation of a cache is a function on stacks; `CoinsCache.dfy` holds the objects
  * that compute these functions in place. A flat map of unspent coins is the reference.
  */
module Coins {
  import opened Prelude

  datatype OutPoint = OutPoint(hash: int, n: nat)

  /** A transaction output with its height and coinbase mark. A null output has value -1. */
  datatype Coin = Coin(value: int, script: seq<nat>, height: nat, coinbase: bool) {
    predicate IsSpent() { value == -1 }

    predicate IsUnspendable() { (|script| > 0 && script[0] == OP_RETURN) || |script| > MAX_SCRIPT_SIZE }
  }

  const OP_RETURN := 0x6a
  const MAX_SCRIPT_SIZE := 10000
  const EMPTY_COIN := Coin(-1, [], 0, false)

  /** The null block hash: a cache whose `best` is null asks its base. */
  const NULL_HASH := 0

  datatype Entry = Entry(coin: Coin, dirty: bool, freshFlag: bool)

  type Entries = map<OutPoint, Entry>

  datatype Stack =
    | Db(coins: map<OutPoint, Coin>, best: int)
    | Cache(entries: Entries, best: int, base: Stack)

  function Find<K, V>(m: map<K, V>, k: K): Option<V> {
    if k in m then Some(m[k]) else None
  }

  function Unspent(coin: Coin): Option<Coin> {
    if coin.IsSpent() then None else Some(coin)
  }

  /** What `GetCoin` answers. */
  function View(s: Stack, o: OutPoint): Option<Coin> {
    match s
    case Db(coins, _) => Find(coins, o)
    case Cache(entries, _, base) =>
      if o in entries then Unspent(entries[o].coin)
      else match View(base, o)
           case None => None
           case Some(coin) => Unspent(coin)
  }

  /** Load `o` into every cache on the way down to the first one that knows it. */
  function Fetch(s: Stack, o: OutPoint): Stack {
    match s
    case Db(_, _) => s
    case Cache(entries, best, base) =>
      if o in entries then s
      else match View(base, o)
           case None => Cache(entries, best, Fetch(base, o))
           case Some(coin) => Cache(entries[o := Entry(coin, false, coin.IsSpent())], best, Fetch(base, o))
  }

  /** The entry `AddCoin` leaves behind, or None where it throws. */
  function AddEntry(was: Option<Entry>, coin: Coin, overwrite: bool): Option<Entry> {
    match was
    case None => Some(Entry(coin, true, !overwrite))
    case Some(e) =>
      if !overwrite && !e.coin.IsSpent() then None
      else Some(Entry(coin, true, e.freshFlag || (!overwrite && !e.dirty)))
  }

  function Add(s: Stack, o: OutPoint, coin: Coin, overwrite: bool): Option<Stack>
    requires s.Cache?
  {
    if coin.IsUnspendable() then Some(s)
    else match AddEntry(Find(s.entries, o), coin, overwrite)
         case None => None
         case Some(e) => Some(s.(entries := s.entries[o := e]))
  }

  function Spend(s: Stack, o: OutPoint): Stack
    requires s.Cache?
  {
    var t := Fetch(s, o);
    if o !in t.entries then t
    else if t.entries[o].freshFlag then t.(entries := t.entries - {o})
    else t.(entries := t.entries[o := Entry(EMPTY_COIN, true, false)])
  }

  function Uncache(s: Stack, o: OutPoint): Stack
    requires s.Cache?
  {
    if o in s.entries && !s.entries[o].dirty && !s.entries[o].freshFlag then s.(entries := s.entries - {o}) else s
  }

  /** One entry of a batch written over one entry of the cache below. */
  function MergeEntry(ours: Option<Entry>, theirs: Option<Entry>): Option<Entry> {
    match theirs
    case None => ours
    case Some(e) =>
      if !e.dirty then ours
      else match ours
           case None => if e.freshFlag && e.coin.IsSpent() then None else Some(Entry(e.coin, true, e.freshFlag))
           case Some(u) => if u.freshFlag && e.coin.IsSpent() then None else Some(Entry(e.coin, true, u.freshFlag))
  }

  function Merge(ours: Entries, batch: Entries): Entries {
    map o | o in ours.Keys + batch.Keys && MergeEntry(Find(ours, o), Find(batch, o)).Some?
      :: MergeEntry(Find(ours, o), Find(batch, o)).value
  }

  /** The entry on which `BatchWrite` throws "FRESH flag misapplied". */
  predicate Misapplied(ours: Option<Entry>, theirs: Option<Entry>) {
    ours.Some? && theirs.Some? && theirs.value.dirty && theirs.value.freshFlag && !ours.value.coin.IsSpent()
  }

  predicate Throws(ours: Entries, batch: Entries) {
    exists o :: o in batch && Misapplied(Find(ours, o), Find(batch, o))
  }

  function WriteDb(coins: map<OutPoint, Coin>, batch: Entries): map<OutPoint, Coin> {
    map o | o in coins.Keys + batch.Keys && (if o in batch && batch[o].dirty then !batch[o].coin.IsSpent() else o in coins)
      :: if o in batch && batch[o].dirty then batch[o].coin else coins[o]
  }

  function BatchWrite(s: Stack, batch: Entries, best: int): Option<Stack> {
    match s
    case Db(coins, b) => Some(Db(WriteDb(coins, batch), if best == NULL_HASH then b else best))
    case Cache(entries, _, base) =>
      if Throws(entries, batch) then None else Some(Cache(Merge(entries, batch), best, base))
  }

  function Flush(s: Stack): Option<Stack>
    requires s.Cache?
  {
    match BatchWrite(s.base, s.entries, s.best)
    case None => None
    case Some(b) => Some(Cache(map[], s.best, b))
  }

  /** What `GetBestBlock` answers. */
  function BestBlock(s: Stack): int {
    if s.Db? || s.best != NULL_HASH then s.best else BestBlock(s.base)
  }

  // ---------------------------------------------------------------- the invariant

  ghost predicate EntryOk(e: Entry, below: Option<Coin>) {
    && (e.freshFlag ==> below == None)
    && (!e.dirty ==> Unspent(e.coin) == below)
  }

  /** FRESH means nothing unspent below, and a clean entry is what the base says. */
  ghost predicate Inv(s: Stack) {
    match s
    case Db(coins, _) => forall o :: o in coins ==> !coins[o].IsSpent()
    case Cache(entries, _, base) => Inv(base) && forall o :: o in entries ==> EntryOk(entries[o], View(base, o))
  }

  ghost predicate SameView(s: Stack, t: Stack) {
    forall o :: View(s, o) == View(t, o)
  }

  lemma {:induction false} ViewIsUnspent(s: Stack, o: OutPoint)
    requires Inv(s)
    ensures View(s, o).Some? ==> !View(s, o).value.IsSpent()
  {
    if s.Cache? && o !in s.entries {
      ViewIsUnspent(s.base, o);
    }
  }

  /** Replacing the base by one with the same view changes nothing above it. */
  lemma Rebase(s: Stack, base: Stack)
    requires s.Cache? && Inv(s) && Inv(base) && SameView(s.base, base)
    ensures Inv(s.(base := base)) && SameView(s, s.(base := base))
  {
    forall o | o in s.entries ensures EntryOk(s.entries[o], View(base, o)) {
      assert EntryOk(s.entries[o], View(s.base, o));
    }
  }

  lemma {:induction false} FetchKeeps(s: Stack, o: OutPoint)
    requires Inv(s)
    ensures Inv(Fetch(s, o)) && SameView(s, Fetch(s, o))
    ensures Fetch(s, o).Cache? == s.Cache?
    ensures s.Cache? ==> (o in Fetch(s, o).entries <==> o in s.entries || View(s, o).Some?)
  {
    if s.Cache? && o !in s.entries {
      FetchKeeps(s.base, o);
      Rebase(s, Fetch(s.base, o));
      ViewIsUnspent(s.base, o);
    }
  }

  lemma UncacheKeeps(s: Stack, o: OutPoint)
    requires Inv(s) && s.Cache?
    ensures Inv(Uncache(s, o)) && SameView(s, Uncache(s, o))
    ensures forall p :: p in Uncache(s, o).entries <==> p in s.entries && (p != o || s.entries[o].dirty || s.entries[o].freshFlag)
    ensures forall p :: p in Uncache(s, o).entries ==> Uncache(s, o).entries[p] == s.entries[p]
  {
    forall p ensures View(s, p) == View(Uncache(s, o), p) {
      ViewIsUnspent(s.base, p);
    }
  }

  /** What one cache shows for one outpoint, given its entry and the coin below. */
  function Shown(e: Option<Entry>, below: Option<Coin>): Option<Coin> {
    match e case None => below case Some(e) => Unspent(e.coin)
  }

  lemma MergeEntryRefines(ours: Option<Entry>, theirs: Option<Entry>, below: Option<Coin>)
    requires ours.Some? ==> EntryOk(ours.value, below)
    requires theirs.Some? ==> EntryOk(theirs.value, Shown(ours, below))
    ensures !Misapplied(ours, theirs)
    ensures var m := MergeEntry(ours, theirs);
            && (m.Some? ==> EntryOk(m.value, below))
            && Shown(m, below) == Shown(theirs, Shown(ours, below))
  {}

  lemma ViewIsShown(s: Stack, o: OutPoint)
    requires Inv(s) && s.Cache?
    ensures View(s, o) == Shown(Find(s.entries, o), View(s.base, o))
  {
    ViewIsUnspent(s.base, o);
  }

  lemma MergeRefines(s: Stack, o: OutPoint)
    requires Inv(s) && s.Cache? && s.base.Cache?
    ensures var c := s.base;
            var m := Find(Merge(c.entries, s.entries), o);
            && !Misapplied(Find(c.entries, o), Find(s.entries, o))
            && (m.Some? ==> EntryOk(m.value, View(c.base, o)))
            && Shown(m, View(c.base, o)) == View(s, o)
  {
    ViewIsShown(s, o);
    ViewIsShown(s.base, o);
    MergeEntryRefines(Find(s.base.entries, o), Find(s.entries, o), View(s.base.base, o));
  }

  /** Writing a cache's entries into its base: never throws, and the base then shows what the cache showed. */
  lemma BatchWriteRefines(s: Stack)
    requires Inv(s) && s.Cache?
    ensures BatchWrite(s.base, s.entries, s.best).Some?
    ensures var b := BatchWrite(s.base, s.entries, s.best).value; Inv(b) && SameView(s, b)
  {
    if s.base.Cache? {
      forall o ensures !Misapplied(Find(s.base.entries, o), Find(s.entries, o)) {
        MergeRefines(s, o);
      }
      var b := BatchWrite(s.base, s.entries, s.best).value;
      forall o ensures o in b.entries ==> EntryOk(b.entries[o], View(b.base, o)) {
        MergeRefines(s, o);
      }
      forall o ensures View(s, o) == View(b, o) {
        MergeRefines(s, o);
        ViewIsShown(b, o);
      }
    } else {
      forall o ensures View(s, o) == View(BatchWrite(s.base, s.entries, s.best).value, o) {
        ViewIsShown(s, o);
      }
    }
  }

  /** A flush empties the cache into its base, which alone then shows what the cache showed; no other level is touched. */
  lemma FlushKeeps(s: Stack)
    requires Inv(s) && s.Cache?
    ensures Flush(s).Some? && Inv(Flush(s).value) && SameView(s, Flush(s).value)
    ensures var t := Flush(s).value;
            && t.Cache? && t.entries == map[] && t.best == s.best && SameView(s, t.base)
            && (if s.base.Db? then t.base.Db? else t.base.Cache? && t.base.base == s.base.base)
  {
    BatchWriteRefines(s);
    var b := Flush(s).value.base;
    forall o ensures View(s, o) == View(Flush(s).value, o) {
      ViewIsUnspent(b, o);
    }
  }

  lemma PutKeepsIff(s: Stack, o: OutPoint, e: Entry)
    requires Inv(s) && s.Cache?
    ensures Inv(s.(entries := s.entries[o := e])) <==> EntryOk(e, View(s.base, o))
  {
    hide View, EntryOk;
    var t := s.(entries := s.entries[o := e]);
    assert o in t.entries && t.entries[o] == e;
  }

  /** Adding keeps the invariant exactly when the caller was entitled to claim "no overwrite". */
  lemma AddKeepsIff(s: Stack, o: OutPoint, coin: Coin, overwrite: bool)
    requires Inv(s) && s.Cache? && !coin.IsSpent() && !coin.IsUnspendable()
    ensures !overwrite && View(s, o) == None ==> Add(s, o, coin, overwrite).Some?
    ensures overwrite ==> Add(s, o, coin, overwrite).Some?
    ensures Add(s, o, coin, overwrite).Some? ==>
              (Inv(Add(s, o, coin, overwrite).value) <==> overwrite || View(s, o) == None)
  {
    hide Inv, EntryOk, AddEntry;
    match AddEntry(Find(s.entries, o), coin, overwrite) {
      case None =>
      case Some(e) => PutKeepsIff(s, o, e);
    }
    AddedEntryIff(s, o, coin, overwrite);
  }

  lemma AddedEntryIff(s: Stack, o: OutPoint, coin: Coin, overwrite: bool)
    requires Inv(s) && s.Cache? && !coin.IsSpent()
    ensures AddEntry(Find(s.entries, o), coin, overwrite).None? ==> !overwrite && View(s, o).Some?
    ensures var r := AddEntry(Find(s.entries, o), coin, overwrite);
            r.Some? ==> (EntryOk(r.value, View(s.base, o)) <==> overwrite || View(s, o) == None)
  {
    ViewIsUnspent(s.base, o);
    if o in s.entries { assert EntryOk(s.entries[o], View(s.base, o)); }
  }

  lemma AddView(s: Stack, o: OutPoint, coin: Coin, overwrite: bool, p: OutPoint)
    requires s.Cache? && !coin.IsSpent() && Add(s, o, coin, overwrite).Some?
    ensures View(Add(s, o, coin, overwrite).value, p)
         == if p == o && !coin.IsUnspendable() then Some(coin) else View(s, p)
  {}

  lemma SpendKeeps(s: Stack, o: OutPoint)
    requires Inv(s) && s.Cache?
    ensures Spend(s, o).Cache? && Inv(Spend(s, o))
    ensures forall p :: View(Spend(s, o), p) == if p == o then None else View(s, p)
  {
    FetchKeeps(s, o);
    var t := Fetch(s, o);
    assert o in t.entries ==> EntryOk(t.entries[o], View(t.base, o));
  }

  // ---------------------------------------------------------------- runs

  /** Adds and spends happen at the top; `level` counts caches down from the top. */
  datatype Op =
    | AddOp(o: OutPoint, coin: Coin, overwrite: bool)
    | SpendOp(o: OutPoint)
    | FetchOp(level: nat, o: OutPoint)
    | UncacheOp(level: nat, o: OutPoint)
    | FlushOp(level: nat)

  /** Fetch, uncache or flush at some level; nothing happens below the last cache. */
  function Maintain(s: Stack, level: nat, op: Op): Option<Stack>
    requires op.FetchOp? || op.UncacheOp? || op.FlushOp?
  {
    if s.Db? then Some(s)
    else if level > 0 then
      match Maintain(s.base, level - 1, op)
      case None => None
      case Some(b) => Some(s.(base := b))
    else match op
         case FetchOp(_, o) => Some(Fetch(s, o))
         case UncacheOp(_, o) => Some(Uncache(s, o))
         case FlushOp(_) => Flush(s)
  }

  function Step(s: Stack, op: Op): Option<Stack>
    requires s.Cache?
  {
    match op
    case AddOp(o, coin, overwrite) => Add(s, o, coin, overwrite)
    case SpendOp(o) => Some(Spend(s, o))
    case _ => Maintain(s, op.level, op)
  }

  /** The same operation on one flat map of unspent coins. */
  function FlatStep(f: map<OutPoint, Coin>, op: Op): map<OutPoint, Coin> {
    match op
    case AddOp(o, coin, _) => if coin.IsUnspendable() then f else f[o := coin]
    case SpendOp(o) => f - {o}
    case _ => f
  }

  function FlatRun(f: map<OutPoint, Coin>, ops: seq<Op>): map<OutPoint, Coin>
    decreases |ops|
  {
    if ops == [] then f else FlatRun(FlatStep(f, ops[0]), ops[1..])
  }

  /** What `AddCoin` asks of its caller: a real coin, and no silent overwrite. */
  ghost predicate Legal(f: map<OutPoint, Coin>, ops: seq<Op>)
    decreases |ops|
  {
    ops == [] ||
    (&& (ops[0].AddOp? ==> !ops[0].coin.IsSpent() && (ops[0].overwrite || ops[0].o !in f))
     && Legal(FlatStep(f, ops[0]), ops[1..]))
  }

  ghost predicate Agrees(s: Stack, f: map<OutPoint, Coin>) {
    forall o :: View(s, o) == Find(f, o)
  }

  /** A stack as it is built: empty caches over a database of unspent coins. */
  ghost predicate Untouched(s: Stack) {
    match s
    case Db(coins, _) => forall o :: o in coins ==> !coins[o].IsSpent()
    case Cache(entries, _, base) => entries == map[] && Untouched(base)
  }

  function Bottom(s: Stack): map<OutPoint, Coin> { match s case Db(coins, _) => coins case Cache(_, _, base) => Bottom(base) }

  /** Every run may start from a stack as it is built, with the database for its flat map. */
  lemma {:induction false} UntouchedAgrees(s: Stack)
    requires Untouched(s)
    ensures Inv(s) && Agrees(s, Bottom(s))
  {
    if s.Cache? {
      UntouchedAgrees(s.base);
      forall o ensures View(s, o) == Find(Bottom(s), o) {
        assert View(s.base, o) == Find(Bottom(s.base), o);
        ViewIsUnspent(s.base, o);
      }
    }
  }

  lemma {:induction false} MaintainKeeps(s: Stack, level: nat, op: Op)
    requires Inv(s) && (op.FetchOp? || op.UncacheOp? || op.FlushOp?)
    ensures var t := Maintain(s, level, op);
            t.Some? && t.value.Cache? == s.Cache? && Inv(t.value) && SameView(s, t.value)
  {
    if s.Db? {
    } else if level > 0 {
      MaintainKeeps(s.base, level - 1, op);
      Rebase(s, Maintain(s.base, level - 1, op).value);
    } else {
      match op
      case FetchOp(_, o) => FetchKeeps(s, o);
      case UncacheOp(_, o) => UncacheKeeps(s, o);
      case FlushOp(_) => FlushKeeps(s);
    }
  }

  lemma StepRefines(s: Stack, f: map<OutPoint, Coin>, op: Op)
    requires s.Cache? && Inv(s) && Agrees(s, f)
    requires op.AddOp? ==> !op.coin.IsSpent() && (op.overwrite || op.o !in f)
    ensures var t := Step(s, op); t.Some? && t.value.Cache? && Inv(t.value) && Agrees(t.value, FlatStep(f, op))
  {
    match op
    case AddOp(o, coin, overwrite) =>
      assert View(s, o) == Find(f, o);
      if !coin.IsUnspendable() {
        AddKeepsIff(s, o, coin, overwrite);
      }
      forall p ensures View(Step(s, op).value, p) == Find(FlatStep(f, op), p) {
        AddView(s, o, coin, overwrite, p);
      }
    case SpendOp(o) => SpendKeeps(s, o);
    case _ => MaintainKeeps(s, op.level, op);
  }

  function Run(s: Stack, ops: seq<Op>): Option<Stack>
    requires s.Cache?
    decreases |ops|
  {
    if ops == [] then Some(s)
    else match Step(s, ops[0])
         case None => None
         case Some(t) => if t.Cache? then Run(t, ops[1..]) else None
  }

  /** Main theorem: a stack of any depth, under any legal run, is one flat map; no exception is ever thrown. */
  lemma {:induction false} RunRefines(s: Stack, f: map<OutPoint, Coin>, ops: seq<Op>)
    requires s.Cache? && Inv(s) && Agrees(s, f) && Legal(f, ops)
    ensures var t := Run(s, ops); t.Some? && t.value.Cache? && Inv(t.value) && Agrees(t.value, FlatRun(f, ops))
    decreases |ops|
  {
    if ops != [] {
      StepRefines(s, f, ops[0]);
      RunRefines(Step(s, ops[0]).value, FlatStep(f, ops[0]), ops[1..]);
    }
  }

  // ---------------------------------------------------------------- writing everything down

  function Depth(s: Stack): nat { match s case Db(_, _) => 0 case Cache(_, _, base) => 1 + Depth(base) }

  /** The first `k` caches from the top are empty. */
  ghost predicate Emptied(s: Stack, k: nat) {
    k == 0 || (s.Cache? && s.entries == map[] && Emptied(s.base, k - 1))
  }

  /** Flushes of levels `k` to `k + n - 1`, in this order. */
  function Flushes(k: nat, n: nat): (ops: seq<Op>)
    decreases n
  {
    if n == 0 then [] else [FlushOp(k)] + Flushes(k + 1, n - 1)
  }

  lemma {:induction false} FlushAt(s: Stack, k: nat, op: Op)
    requires Inv(s) && k < Depth(s) && Emptied(s, k) && op.FlushOp?
    ensures var t := Maintain(s, k, op); t.Some? && Depth(t.value) == Depth(s) && Emptied(t.value, k + 1)
  {
    if k > 0 {
      FlushAt(s.base, k - 1, op);
    } else {
      hide Flush, Inv;
      FlushKeeps(s);
      assert Emptied(Flush(s).value.base, 0);
    }
  }

  lemma {:induction false} FlushesAre(k: nat, n: nat, f: map<OutPoint, Coin>)
    ensures Legal(f, Flushes(k, n)) && FlatRun(f, Flushes(k, n)) == f
    decreases n
  {
    if n > 0 {
      FlushesAre(k + 1, n - 1, f);
      assert Flushes(k, n)[1..] == Flushes(k + 1, n - 1);
    }
  }

  lemma {:induction false} EmptiedIsUntouched(s: Stack)
    requires Inv(s) && Emptied(s, Depth(s))
    ensures Untouched(s)
  {
    if s.Cache? { EmptiedIsUntouched(s.base); }
  }

  lemma {:induction false} FlushesEmpty(s: Stack, k: nat, n: nat)
    requires s.Cache? && Inv(s) && Depth(s) == k + n && Emptied(s, k)
    ensures var t := Run(s, Flushes(k, n)); t.Some? && Inv(t.value) && Depth(t.value) == k + n && Emptied(t.value, k + n)
    decreases n
  {
    hide Maintain, Inv, Emptied;
    if n > 0 {
      FlushAt(s, k, FlushOp(k));
      MaintainKeeps(s, k, FlushOp(k));
      var ops := Flushes(k, n);
      assert ops[0] == FlushOp(k) && ops[1..] == Flushes(k + 1, n - 1);
      FlushesEmpty(Step(s, ops[0]).value, k + 1, n - 1);
    }
  }

  /** Flushing every level from the top down leaves empty caches over a database that is the flat map. */
  lemma FlushedRunIsFlat(s: Stack, f: map<OutPoint, Coin>)
    requires s.Cache? && Inv(s) && Agrees(s, f)
    ensures var t := Run(s, Flushes(0, Depth(s))); t.Some? && Untouched(t.value) && Bottom(t.value) == f
  {
    hide Run, Inv, Emptied;
    var ops := Flushes(0, Depth(s));
    NoneEmptied(s);
    FlushesEmpty(s, 0, Depth(s));
    FlushesAre(0, Depth(s), f);
    RunRefines(s, f, ops);
    var t := Run(s, ops).value;
    EmptiedIsUntouched(t);
    UntouchedAgrees(t);
    SameMap(t, f, Bottom(t));
  }

  /** After any legal run, flushing every level writes exactly what the run left to the database. */
  lemma RunReachesDatabase(s: Stack, f: map<OutPoint, Coin>, ops: seq<Op>)
    requires s.Cache? && Inv(s) && Agrees(s, f) && Legal(f, ops)
    ensures var t := Run(s, ops);
            && t.Some? && t.value.Cache?
            && var u := Run(t.value, Flushes(0, Depth(t.value)));
               u.Some? && Untouched(u.value) && Bottom(u.value) == FlatRun(f, ops)
  {
    hide Run, Inv, Agrees, Untouched;
    RunRefines(s, f, ops);
    FlushedRunIsFlat(Run(s, ops).value, FlatRun(f, ops));
  }

  lemma NoneEmptied(s: Stack)
    ensures Emptied(s, 0)
  {}

  lemma SameMap(s: Stack, f: map<OutPoint, Coin>, g: map<OutPoint, Coin>)
    requires Agrees(s, f) && Agrees(s, g)
    ensures f == g
  {
    forall o ensures Find(f, o) == Find(g, o) { assert View(s, o) == Find(f, o) && View(s, o) == Find(g, o); }
    assert forall o :: Find(f, o) == Find(g, o) ==> (o in f <==> o in g);
    assert f.Keys == g.Keys;
  }

  /** Why `Legal` is needed: add over an uncached coin without saying so, spend it, and the old coin is back. */
  lemma MisusedAddResurrects(o: OutPoint, old': Coin, coin: Coin)
    requires !old'.IsSpent() && !coin.IsSpent() && !coin.IsUnspendable()
    ensures var s := Cache(map[], NULL_HASH, Db(map[o := old'], NULL_HASH));
            var t := Run(s, [AddOp(o, coin, false), SpendOp(o)]);
            Inv(s) && t.Some? && View(t.value, o) == Some(old')
  {
    var s := Cache(map[], NULL_HASH, Db(map[o := old'], NULL_HASH));
    var ops := [AddOp(o, coin, false), SpendOp(o)];
    var t := Step(s, ops[0]).value;
    assert ops[1..] == [SpendOp(o)];
    assert ops[1..][1..] == [];
    assert Run(s, ops) == Run(t, [SpendOp(o)]) == Some(Spend(t, o));
    assert o !in Spend(t, o).entries;
  }

  // ---------------------------------------------------------------- best block

  /** The caller-checkable guard under which flushing keeps the best block. */
  predicate FlushKeepsBest(s: Stack)
    requires s.Cache?
  {
    s.best != NULL_HASH || s.base.Db? || s.base.best == NULL_HASH || s.base.best == BestBlock(s.base.base)
  }

  /** A flush without a best block of its own nulls the base's: the answer survives exactly under the guard. */
  lemma FlushBestBlockIff(s: Stack)
    requires Inv(s) && s.Cache?
    ensures Flush(s).Some? && (BestBlock(Flush(s).value) == BestBlock(s) <==> FlushKeepsBest(s))
  {
    FlushKeeps(s);
  }

  lemma FlushCanLoseBestBlock(h: int, g: int)
    requires h != NULL_HASH && g != h
    ensures var s := Cache(map[], NULL_HASH, Cache(map[], h, Db(map[], g)));
            Inv(s) && BestBlock(s) == h && BestBlock(Flush(s).value) == g
  {
    var s := Cache(map[], NULL_HASH, Cache(map[], h, Db(map[], g)));
    var t := BatchWrite(s.base, s.entries, s.best);
    assert t == Some(Cache(Merge(map[], map[]), NULL_HASH, Db(map[], g)));
    assert BestBlock(t.value) == g;
  }
}
