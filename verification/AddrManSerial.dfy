/** The address manager's stream format: what is written, and how the tables are rebuilt from it. */
module AddrManSerial {
  import opened Prelude
  import opened AddrMan
  import opened AddrManRun

  /** The fields of an entry that are written. */
  datatype Record = Record(addr: Service, time: int, services: bv64, source: int, lastSuccess: int, attempts: int)

  /** `sameLayout` stands for version 1 with the usual number of new buckets. */
  datatype Stream = Stream(sameLayout: bool, nNew: int, nTried: int, news: seq<Record>, tried: seq<Record>, buckets: seq<seq<int>>)

  function RecordOf(i: Info): Record { Record(i.addr, i.time, i.services, i.source, i.lastSuccess, i.attempts) }

  // ---------------------------------------------------------------- writing

  /** The entries below `n` with references, in order of id; `tried` selects the tried ones instead. */
  function Ids(m: Man, tried: bool, n: nat): seq<int> {
    if n == 0 then []
    else Ids(m, tried, n - 1) + if n - 1 in m.info && Listed(m.info[n - 1], tried) then [n - 1] else []
  }

  predicate Listed(i: Info, tried: bool) { if tried then i.inTried else i.refCount != 0 }

  /** The position of entry `id` in its list. */
  function Rank(m: Man, tried: bool, id: nat): nat { |Ids(m, tried, id)| }

  function Records(m: Man, ids: seq<int>): (rs: seq<Record>)
    requires forall i :: 0 <= i < |ids| ==> ids[i] in m.info
  {
    seq(|ids|, i requires 0 <= i < |ids| => RecordOf(m.info[ids[i]]))
  }

  /** The list positions of the entries in the first `i` slots of a bucket. */
  function Bucket(m: Man, b: nat, i: nat): seq<int> {
    if i == 0 then []
    else Bucket(m, b, i - 1) +
         if Pos(b, i - 1) in m.news && m.news[Pos(b, i - 1)] >= 0 then [Rank(m, false, m.news[Pos(b, i - 1)])] else []
  }

  function Serialize(m: Man): Stream {
    IdsListed(m, false, m.idCount);
    IdsListed(m, true, m.idCount);
    Stream(true, m.nNew, m.nTried,
           Records(m, Ids(m, false, m.idCount)), Records(m, Ids(m, true, m.idCount)),
           seq(NEW_BUCKETS, b requires 0 <= b < NEW_BUCKETS => Bucket(m, b, BUCKET_SIZE)))
  }

  lemma {:induction false} IdsListed(m: Man, tried: bool, n: nat)
    ensures forall i :: 0 <= i < |Ids(m, tried, n)| ==>
              0 <= Ids(m, tried, n)[i] < n && Ids(m, tried, n)[i] in m.info && Listed(m.info[Ids(m, tried, n)[i]], tried)
  {
    if n > 0 {
      IdsListed(m, tried, n - 1);
    }
  }

  lemma {:induction false} IdAtRank(m: Man, tried: bool, n: nat, id: nat)
    requires id < n && id in m.info && Listed(m.info[id], tried)
    ensures Rank(m, tried, id) < |Ids(m, tried, n)| && Ids(m, tried, n)[Rank(m, tried, id)] == id
  {
    if id < n - 1 {
      IdAtRank(m, tried, n - 1, id);
    }
  }

  lemma {:induction false} RankOfId(m: Man, tried: bool, n: nat, i: nat)
    requires i < |Ids(m, tried, n)|
    ensures Ids(m, tried, n)[i] >= 0 && Rank(m, tried, Ids(m, tried, n)[i]) == i
  {
    if i < |Ids(m, tried, n - 1)| {
      RankOfId(m, tried, n - 1, i);
    }
  }

  /** The ids below `n` that are listed. */
  function IdSet(m: Man, tried: bool, n: nat): set<int> { set id | id in m.info && 0 <= id < n && Listed(m.info[id], tried) }

  lemma IdSetNext(m: Man, tried: bool, n: nat)
    ensures IdSet(m, tried, n + 1) == IdSet(m, tried, n) + if n in m.info && Listed(m.info[n], tried) then {n} else {}
  {}

  /** The list is as long as the set it lists. */
  lemma {:induction false} IdsCount(m: Man, tried: bool, n: nat)
    ensures |Ids(m, tried, n)| == |IdSet(m, tried, n)|
  {
    if n == 0 {
      assert IdSet(m, tried, 0) == {};
    } else {
      IdsCount(m, tried, n - 1);
      IdSetNext(m, tried, n - 1);
    }
  }

  // ---------------------------------------------------------------- reading

  function Entry(r: Record, pos: int, tried: bool): Info {
    Info(r.addr, r.time, r.services, r.source, 0, 0, r.lastSuccess, r.attempts, 0, tried, pos)
  }

  /** Without a usable bucket list an entry gets the slot of its own source, if that is free. */
  function Fallback(m: Man, id: int): Man
    requires id in m.info
  {
    var p := m.cfg.NewPos(m.info[id].addr, m.info[id].source);
    if p in m.news then m else Ref(m, p, id, m.info[id].refCount + 1)
  }

  /** The manager after reading `n` new entries into a fresh one; addresses are keyed with their port. */
  function LoadNew(cfg: Config, s: Stream, n: nat): (m: Man)
    requires n <= |s.news|
  {
    if n == 0 then Empty(cfg).(nNew := s.nNew, nTried := s.nTried)
    else
      var t := LoadNewOne(LoadNew(cfg, s, n - 1), s.news[n - 1], n - 1);
      if s.sameLayout then t else Fallback(t, n - 1)
  }

  function LoadNewOne(m: Man, r: Record, id: int): (t: Man)
    ensures id in t.info
  {
    m.(info := m.info[id := Entry(r, |m.random|, false)], addrs := m.addrs[r.addr := id], random := m.random + [id])
  }

  /** One tried entry: kept if its slot is free, lost otherwise. */
  function LoadTriedOne(m: Man, r: Record): Man {
    var p := m.cfg.TriedPos(r.addr);
    if p in m.tried then m.(nTried := m.nTried - 1)
    else m.(info := m.info[m.idCount := Entry(r, |m.random|, true)], addrs := m.addrs[r.addr := m.idCount],
            random := m.random + [m.idCount], tried := m.tried[p := m.idCount], idCount := m.idCount + 1)
  }

  function LoadTried(m: Man, rs: seq<Record>, n: nat): Man
    requires n <= |rs|
  {
    if n == 0 then m else LoadTriedOne(LoadTried(m, rs, n - 1), rs[n - 1])
  }

  /** One index of a bucket: the entry goes to its own position there. */
  function LoadIndex(m: Man, s: Stream, b: nat, index: int): Man {
    if !(0 <= index < s.nNew) || index !in m.info then m
    else
      var p := m.cfg.NewPosIn(m.info[index].addr, b);
      if s.sameLayout && p !in m.news && m.info[index].refCount < NEW_BUCKETS_PER_ADDRESS
      then Ref(m, p, index, m.info[index].refCount + 1) else m
  }

  function LoadBucket(m: Man, s: Stream, b: nat, n: nat): Man
    requires b < |s.buckets| && n <= |s.buckets[b]|
  {
    if n == 0 then m else LoadIndex(LoadBucket(m, s, b, n - 1), s, b, s.buckets[b][n - 1])
  }

  function LoadBuckets(m: Man, s: Stream, b: nat): Man
    requires b <= |s.buckets|
  {
    if b == 0 then m else LoadBucket(LoadBuckets(m, s, b - 1), s, b - 1, |s.buckets[b - 1]|)
  }

  /** Entries below `n` that ended up in no table are deleted. */
  predicate Pruned(i: Info) { !i.inTried && i.refCount == 0 }

  function Prune(m: Man, n: nat): Man {
    if n == 0 then m
    else
      var t := Prune(m, n - 1);
      if n - 1 in t.info && Pruned(t.info[n - 1]) && CanDelete(t, n - 1) then Delete(t, n - 1) else t
  }

  /** Everything before the pruning. */
  function Load(cfg: Config, s: Stream): Man {
    LoadBuckets(LoadTried(LoadNew(cfg, s, |s.news|).(idCount := |s.news|), s.tried, |s.tried|), s, |s.buckets|)
  }

  function Unserialize(cfg: Config, s: Stream): Man {
    Prune(Load(cfg, s), Load(cfg, s).idCount)
  }

  /** The limits that make `Unserialize` throw, and the announced lengths. */
  predicate Acceptable(s: Stream) {
    && s.nNew <= NEW_BUCKETS * BUCKET_SIZE && s.nTried <= TRIED_BUCKETS * BUCKET_SIZE
    && s.nNew == |s.news| && s.nTried == |s.tried| && |s.buckets| == NEW_BUCKETS
  }

  // ---------------------------------------------------------------- the round trip

  /** The old id of each entry, in the order in which they come back. */
  function Order(m: Man): seq<int> { Ids(m, false, m.idCount) + Ids(m, true, m.idCount) }

  /** The new id of an entry. */
  function NewId(m: Man, id: int): int
    requires id in m.info && id >= 0
  {
    if m.info[id].inTried then |Ids(m, false, m.idCount)| + Rank(m, true, id) else Rank(m, false, id)
  }

  /** `NewId` and `Order` are inverse to each other. */
  lemma OrderOfNewId(m: Man, id: int)
    requires Inv(m) && id in m.info
    ensures id >= 0 && 0 <= NewId(m, id) < |Order(m)| && Order(m)[NewId(m, id)] == id
    ensures NewId(m, id) < |Ids(m, false, m.idCount)| <==> !m.info[id].inTried
  {
    IdAtRank(m, m.info[id].inTried, m.idCount, id);
  }

  lemma NewIdOfOrder(m: Man, i: nat)
    requires Inv(m) && i < |Order(m)|
    ensures Order(m)[i] in m.info && Order(m)[i] >= 0 && NewId(m, Order(m)[i]) == i
    ensures m.info[Order(m)[i]].inTried <==> i >= |Ids(m, false, m.idCount)|
  {
    var n := |Ids(m, false, m.idCount)|;
    IdsListed(m, false, m.idCount);
    IdsListed(m, true, m.idCount);
    if i < n {
      RankOfId(m, false, m.idCount, i);
      NotBoth(m, Order(m)[i]);
    } else {
      RankOfId(m, true, m.idCount, i - n);
    }
  }

  lemma NotBoth(m: Man, id: int)
    requires Inv(m) && id in m.info
    ensures m.info[id].inTried <==> m.info[id].refCount == 0
  {
    if m.info[id].inTried {
      TriedHasNoSlot(m, id);
    }
  }

  function Grid(b: nat): set<Pos> {
    set x: nat, y: nat | x < b && y < BUCKET_SIZE :: Pos(x, y)
  }

  function Row(b: nat, n: nat): set<Pos> {
    set y: nat | y < n :: Pos(b, y)
  }

  lemma {:induction false} RowSize(b: nat, n: nat)
    ensures |Row(b, n)| == n
  {
    if n == 0 {
      assert Row(b, n) == {};
    } else {
      RowSize(b, n - 1);
      assert Row(b, n) == Row(b, n - 1) + {Pos(b, n - 1)};
    }
  }

  lemma {:induction false} GridSize(b: nat)
    ensures |Grid(b)| == b * BUCKET_SIZE
  {
    if b == 0 {
      assert Grid(b) == {};
    } else {
      GridSize(b - 1);
      RowSize(b - 1, BUCKET_SIZE);
      assert Grid(b) == Grid(b - 1) + Row(b - 1, BUCKET_SIZE);
      assert Grid(b - 1) !! Row(b - 1, BUCKET_SIZE);
    }
  }

  lemma {:induction false} SubsetSize<T>(a: set<T>, b: set<T>)
    requires a <= b
    ensures |a| <= |b|
  {
    assert b == a + (b - a);
  }

  /** A table lists at most as many entries as it has slots. */
  lemma {:induction false} ValuesBound(t: map<Pos, int>)
    ensures |t.Values| <= |t.Keys|
    decreases |t.Keys|
  {
    if t.Keys == {} {
      assert t.Values == {};
    } else {
      var p :| p in t.Keys;
      var u := t - {p};
      assert u.Keys == t.Keys - {p};
      ValuesBound(u);
      forall v | v in t.Values ensures v in u.Values + {t[p]} {
        var q :| q in t.Keys && t[q] == v;
        assert q != p ==> q in u.Keys && u[q] == v;
      }
      SubsetSize(t.Values, u.Values + {t[p]});
    }
  }

  lemma TablesHold(m: Man)
    requires Inv(m)
    ensures |NewIds(m)| <= NEW_BUCKETS * BUCKET_SIZE && |TriedIds(m)| <= TRIED_BUCKETS * BUCKET_SIZE
  {
    hide AddrsOk, RandomOk, TimesOk, CountsOk;
    forall id | id in NewIds(m) ensures id in m.news.Values {
      assert Slots(m, id) != {};
      var p :| p in Slots(m, id);
      assert p in m.news.Keys;
    }
    forall id | id in TriedIds(m) ensures id in m.tried.Values {
      assert m.cfg.TriedPos(m.info[id].addr) in m.tried.Keys;
    }
    SubsetSize(NewIds(m), m.news.Values);
    ValuesBound(m.news);
    GridSize(NEW_BUCKETS);
    SubsetSize(m.news.Keys, Grid(NEW_BUCKETS));
    SubsetSize(TriedIds(m), m.tried.Values);
    ValuesBound(m.tried);
    GridSize(TRIED_BUCKETS);
    SubsetSize(m.tried.Keys, Grid(TRIED_BUCKETS));
  }

  /** Neither counter was wrong: the asserts of `Serialize` hold and the stream is acceptable. */
  lemma SerializeAcceptable(m: Man)
    requires Inv(m)
    ensures Acceptable(Serialize(m)) && |Ids(m, false, m.idCount)| == m.nNew && |Ids(m, true, m.idCount)| == m.nTried
  {
    hide AddrsOk, RandomOk, TriedOk, NewsOk;
    IdsCount(m, false, m.idCount);
    IdsCount(m, true, m.idCount);
    forall id | id in m.info ensures m.info[id].inTried <==> m.info[id].refCount == 0 {
      NotBoth(m, id);
    }
    assert (set id | id in m.info && 0 <= id < m.idCount && Listed(m.info[id], false)) == NewIds(m);
    assert (set id | id in m.info && 0 <= id < m.idCount && Listed(m.info[id], true)) == TriedIds(m);
    TablesHold(m);
  }

  // ---------------------------------------------------------------- the entries come back

  /** The same entry, as far as the stream knows, at place `i`. */
  ghost predicate Restored(was: Info, now: Info, i: int) {
    now == was.(lastTry := 0, lastCount := 0, refCount := now.refCount, randomPos := i)
  }

  /** The first `n` entries of `Order(m)` have come back, numbered in that order. */
  ghost predicate EntriesBack(m: Man, t: Man, n: nat) {
    && n <= |Order(m)| && t.cfg == m.cfg && |t.random| == n
    && (forall i :: 0 <= i < n ==> t.random[i] == i)
    && (forall i :: i in t.info <==> 0 <= i < n)
    && (forall i :: 0 <= i < n ==> Order(m)[i] in m.info && Restored(m.info[Order(m)[i]], t.info[i], i))
  }

  ghost predicate AddrsBack(m: Man, t: Man, n: nat) {
    && (forall i :: 0 <= i < n && i in t.info ==> t.info[i].addr in t.addrs && t.addrs[t.info[i].addr] == i)
    && (forall k :: k in t.addrs ==> 0 <= t.addrs[k] < n && t.addrs[k] in t.info && t.info[t.addrs[k]].addr == k)
  }

  ghost predicate TriedBack(m: Man, t: Man, n: nat) {
    && (forall p :: p in t.tried ==>
          0 <= t.tried[p] < n && t.tried[p] in t.info && t.info[t.tried[p]].inTried && p == t.cfg.TriedPos(t.info[t.tried[p]].addr))
    && (forall i :: 0 <= i < n && i in t.info && t.info[i].inTried ==>
          t.cfg.TriedPos(t.info[i].addr) in t.tried && t.tried[t.cfg.TriedPos(t.info[i].addr)] == i)
  }

  /** Different entries have different addresses. */
  lemma OrderDistinct(m: Man, i: nat, j: nat)
    requires Inv(m) && i < j < |Order(m)|
    ensures Order(m)[i] in m.info && Order(m)[j] in m.info && m.info[Order(m)[i]].addr != m.info[Order(m)[j]].addr
    ensures m.info[Order(m)[i]].inTried && m.info[Order(m)[j]].inTried ==>
              m.cfg.TriedPos(m.info[Order(m)[i]].addr) != m.cfg.TriedPos(m.info[Order(m)[j]].addr)
  {
    NewIdOfOrder(m, i);
    NewIdOfOrder(m, j);
    var x, y := Order(m)[i], Order(m)[j];
    assert m.addrs[m.cfg.Key(m.info[x].addr)] == x && m.addrs[m.cfg.Key(m.info[y].addr)] == y;
  }

  /** Adding the next entry, new or tried. */
  function Append(t: Man, e: Info): Man {
    t.(info := t.info[|t.random| := e.(randomPos := |t.random|)], addrs := t.addrs[e.addr := |t.random|], random := t.random + [|t.random|],
       tried := if e.inTried then t.tried[t.cfg.TriedPos(e.addr) := |t.random|] else t.tried)
  }

  lemma AppendEntries(m: Man, t: Man, n: nat)
    requires Inv(m) && n < |Order(m)| && EntriesBack(m, t, n)
    ensures Order(m)[n] in m.info
    ensures var w := m.info[Order(m)[n]];
            EntriesBack(m, Append(t, Entry(RecordOf(w), 0, w.inTried)), n + 1)
  {
    hide Loose, Order;
    NewIdOfOrder(m, n);
  }

  lemma AppendAddrs(m: Man, t: Man, n: nat)
    requires Inv(m) && n < |Order(m)| && EntriesBack(m, t, n) && AddrsBack(m, t, n)
    ensures Order(m)[n] in m.info
    ensures var w := m.info[Order(m)[n]];
            AddrsBack(m, Append(t, Entry(RecordOf(w), 0, w.inTried)), n + 1)
  {
    hide Loose, Order;
    NewIdOfOrder(m, n);
    forall i | 0 <= i < n ensures m.info[Order(m)[i]].addr != m.info[Order(m)[n]].addr {
      OrderDistinct(m, i, n);
    }
    assert forall i :: 0 <= i < n ==> t.info[i].addr == m.info[Order(m)[i]].addr;
  }

  /** The tried slot of the next entry is still free: nothing is lost. */
  lemma TriedSlotFree(m: Man, t: Man, n: nat)
    requires Inv(m) && n < |Order(m)| && EntriesBack(m, t, n) && TriedBack(m, t, n)
    ensures Order(m)[n] in m.info
    ensures m.info[Order(m)[n]].inTried ==> m.cfg.TriedPos(m.info[Order(m)[n]].addr) !in t.tried
  {
    hide Loose, Order;
    NewIdOfOrder(m, n);
    var p := m.cfg.TriedPos(m.info[Order(m)[n]].addr);
    if m.info[Order(m)[n]].inTried && p in t.tried {
      var i := t.tried[p];
      assert Restored(m.info[Order(m)[i]], t.info[i], i);
      OrderDistinct(m, i, n);
    }
  }

  lemma AppendTried(m: Man, t: Man, n: nat)
    requires Inv(m) && n < |Order(m)| && EntriesBack(m, t, n) && TriedBack(m, t, n)
    ensures Order(m)[n] in m.info
    ensures var w := m.info[Order(m)[n]];
            TriedBack(m, Append(t, Entry(RecordOf(w), 0, w.inTried)), n + 1)
  {
    hide Loose, Order, Restored;
    TriedSlotFree(m, t, n);
    var w := m.info[Order(m)[n]];
    AppendTriedTable(m, t, n, Entry(RecordOf(w), 0, w.inTried));
  }

  lemma AppendTriedTable(m: Man, t: Man, n: nat, e: Info)
    requires TriedBack(m, t, n) && |t.random| == n && (forall i :: i in t.info <==> 0 <= i < n)
    requires e.inTried ==> t.cfg.TriedPos(e.addr) !in t.tried
    ensures TriedBack(m, Append(t, e), n + 1)
  {
    var u := Append(t, e);
    forall p | p in u.tried
      ensures 0 <= u.tried[p] < n + 1 && u.tried[p] in u.info && u.info[u.tried[p]].inTried && p == u.cfg.TriedPos(u.info[u.tried[p]].addr)
    {
      if p in t.tried {
        var i := t.tried[p];
        assert i in t.info && i == u.tried[p];
      }
    }
  }

  /** The first `n` entries are back, in no new slot yet. */
  ghost predicate Back(m: Man, t: Man, n: nat) {
    && EntriesBack(m, t, n) && AddrsBack(m, t, n) && TriedBack(m, t, n)
    && t.news == map[] && (forall i :: i in t.info ==> t.info[i].refCount == 0)
    && t.nNew == m.nNew && t.nTried == m.nTried
  }

  lemma AppendBack(m: Man, t: Man, n: nat)
    requires Inv(m) && n < |Order(m)| && Back(m, t, n)
    ensures Order(m)[n] in m.info
    ensures var w := m.info[Order(m)[n]]; Back(m, Append(t, Entry(RecordOf(w), 0, w.inTried)), n + 1)
  {
    hide Loose, Order, EntriesBack, AddrsBack, TriedBack;
    AppendEntries(m, t, n);
    AppendAddrs(m, t, n);
    AppendTried(m, t, n);
  }

  lemma {:induction false} LoadNewBack(m: Man, n: nat)
    requires Inv(m) && n <= |Serialize(m).news|
    ensures Back(m, LoadNew(m.cfg, Serialize(m), n), n)
  {
    hide Loose, AddrsBack, TriedBack;
    if n == 0 {
      NothingBack(m, LoadNew(m.cfg, Serialize(m), 0));
    } else {
      LoadNewBack(m, n - 1);
      var t := LoadNew(m.cfg, Serialize(m), n - 1);
      IdsListed(m, false, m.idCount);
      AppendBack(m, t, n - 1);
      NewIdOfOrder(m, n - 1);
      assert Order(m)[n - 1] == Ids(m, false, m.idCount)[n - 1];
      assert LoadNew(m.cfg, Serialize(m), n) == Append(t, Entry(RecordOf(m.info[Order(m)[n - 1]]), 0, false));
    }
  }

  lemma NothingBack(m: Man, t: Man)
    requires t.cfg == m.cfg && t.info == map[] && t.addrs == map[] && t.tried == map[] && t.news == map[] && t.random == []
    requires t.nNew == m.nNew && t.nTried == m.nTried
    ensures Back(m, t, 0)
  {}

  lemma BackFrame(m: Man, t: Man, u: Man, n: nat)
    requires Back(m, t, n) && u == t.(idCount := u.idCount)
    ensures Back(m, u, n)
  {}

  /** Reading the next tried entry loses nothing. */
  lemma LoadTriedStep(m: Man, t: Man, n: nat)
    requires Inv(m) && 1 <= n <= |Ids(m, true, m.idCount)|
    requires var k := |Ids(m, false, m.idCount)| + n - 1; Back(m, t, k) && t.idCount == k
    ensures Ids(m, true, m.idCount)[n - 1] in m.info
    ensures var k := |Ids(m, false, m.idCount)| + n;
            var u := LoadTriedOne(t, RecordOf(m.info[Ids(m, true, m.idCount)[n - 1]]));
            Back(m, u, k) && u.idCount == k
  {
    hide Loose, AddrsBack;
    var k := |Ids(m, false, m.idCount)| + n - 1;
    assert Order(m)[k] == Ids(m, true, m.idCount)[n - 1];
    NewIdOfOrder(m, k);
    TriedSlotFree(m, t, k);
    AppendBack(m, t, k);
    var w := m.info[Order(m)[k]];
    BackFrame(m, Append(t, Entry(RecordOf(w), 0, true)), LoadTriedOne(t, RecordOf(w)), k + 1);
  }

  lemma {:induction false} LoadTriedBack(m: Man, n: nat)
    requires Inv(m) && n <= |Serialize(m).tried|
    ensures var s := Serialize(m);
            var t := LoadTried(LoadNew(m.cfg, s, |s.news|).(idCount := |s.news|), s.tried, n);
            Back(m, t, |s.news| + n) && t.idCount == |s.news| + n
  {
    hide Loose, Back, LoadTriedOne;
    var s := Serialize(m);
    var t0 := LoadNew(m.cfg, s, |s.news|);
    if n == 0 {
      LoadNewBack(m, |s.news|);
      BackFrame(m, t0, t0.(idCount := |s.news|), |s.news|);
    } else {
      LoadTriedBack(m, n - 1);
      LoadTriedStep(m, LoadTried(t0.(idCount := |s.news|), s.tried, n - 1), n);
    }
  }

  // ---------------------------------------------------------------- the new slots come back

  /** Slots before slot `i` of bucket `b`. */
  predicate Before(p: Pos, b: nat, i: nat) { p.bucket < b || (p.bucket == b && p.slot < i) }

  /** The new slots before `(b, i)` hold their entries again, under the new ids. */
  ghost predicate NewsBack(m: Man, t: Man, b: nat, i: nat) {
    && (forall p :: p in t.news <==> p in m.news && Before(p, b, i))
    && (forall p :: p in t.news ==> m.news[p] in m.info && m.news[p] >= 0 && t.news[p] == NewId(m, m.news[p]))
    && (forall x :: x in t.info ==> t.info[x].refCount == |Slots(t, x)|)
  }

  /** All entries are back; bucket reading only changes references and slots. */
  ghost predicate AllBack(m: Man, t: Man) {
    && EntriesBack(m, t, |Order(m)|) && AddrsBack(m, t, |Order(m)|) && TriedBack(m, t, |Order(m)|)
    && t.nNew == m.nNew && t.nTried == m.nTried && t.idCount == |Order(m)|
  }

  /** `u` differs from `t` in references and new slots only. */
  ghost predicate OnlyRefs(t: Man, u: Man) {
    && u == t.(info := u.info, news := u.news)
    && (forall i :: i in t.info <==> i in u.info)
    && (forall i :: i in t.info ==> u.info[i] == t.info[i].(refCount := u.info[i].refCount))
  }

  lemma EntriesBackFrame(m: Man, t: Man, u: Man, n: nat)
    requires EntriesBack(m, t, n) && OnlyRefs(t, u)
    ensures EntriesBack(m, u, n)
  {
    hide Order;
    forall i | 0 <= i < n ensures Order(m)[i] in m.info && Restored(m.info[Order(m)[i]], u.info[i], i) {
      assert i in t.info && Restored(m.info[Order(m)[i]], t.info[i], i);
    }
  }

  lemma AddrsBackFrame(m: Man, t: Man, u: Man, n: nat)
    requires AddrsBack(m, t, n) && OnlyRefs(t, u)
    ensures AddrsBack(m, u, n)
  {
    forall k | k in u.addrs ensures 0 <= u.addrs[k] < n && u.addrs[k] in u.info && u.info[u.addrs[k]].addr == k {
      var i := t.addrs[k];
      assert i in t.info;
    }
  }

  lemma TriedBackFrame(m: Man, t: Man, u: Man, n: nat)
    requires TriedBack(m, t, n) && OnlyRefs(t, u)
    ensures TriedBack(m, u, n)
  {
    forall p | p in u.tried
      ensures 0 <= u.tried[p] < n && u.tried[p] in u.info && u.info[u.tried[p]].inTried && p == u.cfg.TriedPos(u.info[u.tried[p]].addr)
    {
      var i := t.tried[p];
      assert i in t.info;
    }
  }

  lemma RefAllBack(m: Man, t: Man, p: Pos, x: int, n: int)
    requires AllBack(m, t) && x in t.info
    ensures AllBack(m, Ref(t, p, x, n))
  {
    hide Order, EntriesBack, AddrsBack, TriedBack;
    var r := Ref(t, p, x, n);
    EntriesBackFrame(m, t, r, |Order(m)|);
    AddrsBackFrame(m, t, r, |Order(m)|);
    TriedBackFrame(m, t, r, |Order(m)|);
  }

  /** An entry that still misses a slot has room for one more reference. */
  lemma RoomForRef(m: Man, t: Man, b: nat, i: nat, p: Pos)
    requires Inv(m) && NewsBack(m, t, b, i) && p in m.news && p !in t.news
    ensures m.news[p] in m.info && m.news[p] >= 0 && |Slots(t, NewId(m, m.news[p]))| < NEW_BUCKETS_PER_ADDRESS
  {
    hide AddrsOk, RandomOk, TriedOk, CountsOk, Settled;
    var x := m.news[p];
    assert x in m.info;
    var r := NewId(m, x);
    OrderOfNewId(m, x);
    forall q | q in Slots(t, r) ensures q in Slots(m, x) {
      var y := m.news[q];
      OrderOfNewId(m, y);
    }
    SubsetSize(Slots(t, r) + {p}, Slots(m, x));
  }

  lemma RefCounts(t: Man, p: Pos, r: int)
    requires p !in t.news && r in t.info && forall x :: x in t.info ==> t.info[x].refCount == |Slots(t, x)|
    ensures var u := Ref(t, p, r, t.info[r].refCount + 1); forall x :: x in u.info ==> u.info[x].refCount == |Slots(u, x)|
  {
    var u := Ref(t, p, r, t.info[r].refCount + 1);
    assert Slots(u, r) == Slots(t, r) + {p};
    forall y | y in u.info ensures u.info[y].refCount == |Slots(u, y)| {
      if y != r {
        assert y in t.info && Slots(u, y) == Slots(t, y);
      }
    }
  }

  lemma RefNewsBack(m: Man, t: Man, b: nat, i: nat)
    requires NewsBack(m, t, b, i) && Pos(b, i) in m.news && m.news[Pos(b, i)] in m.info && m.news[Pos(b, i)] >= 0
    ensures var r := NewId(m, m.news[Pos(b, i)]);
            r in t.info ==> NewsBack(m, Ref(t, Pos(b, i), r, t.info[r].refCount + 1), b, i + 1)
  {
    hide NewId, Slots;
    var p := Pos(b, i);
    var r := NewId(m, m.news[p]);
    if r in t.info {
      RefCounts(t, p, r);
    }
  }

  lemma SkipNewsBack(m: Man, t: Man, b: nat, i: nat)
    requires NewsBack(m, t, b, i) && Pos(b, i) !in m.news
    ensures NewsBack(m, t, b, i + 1)
  {}

  /** Reading the index of slot `(b, i)` puts the entry back where it was. */
  lemma LoadIndexBack(m: Man, t: Man, b: nat, i: nat)
    requires Inv(m) && AllBack(m, t) && NewsBack(m, t, b, i) && Pos(b, i) in m.news
    ensures m.news[Pos(b, i)] in m.info && m.news[Pos(b, i)] >= 0
    ensures var u := LoadIndex(t, Serialize(m), b, Rank(m, false, m.news[Pos(b, i)]));
            AllBack(m, u) && NewsBack(m, u, b, i + 1)
  {
    hide Loose, NewsBack, AddrsBack, TriedBack, Order;
    var p := Pos(b, i);
    SlotEntry(m, p);
    NotYet(m, t, b, i);
    var x := m.news[p];
    RefNewsBack(m, t, b, i);
    RoomForRef(m, t, b, i, p);
    OrderOfNewId(m, x);
    SerializeAcceptable(m);
    var r := NewId(m, x);
    assert r in t.info && Restored(m.info[Order(m)[r]], t.info[r], r);
    RefAllBack(m, t, p, r, t.info[r].refCount + 1);
  }

  lemma NotYet(m: Man, t: Man, b: nat, i: nat)
    requires NewsBack(m, t, b, i)
    ensures Pos(b, i) !in t.news && forall x :: x in t.info ==> t.info[x].refCount == |Slots(t, x)|
  {}

  /** A new slot holds an entry that is not tried, at that entry's own position. */
  lemma SlotEntry(m: Man, p: Pos)
    requires Inv(m) && p in m.news
    ensures m.news[p] in m.info && m.news[p] >= 0 && !m.info[m.news[p]].inTried
    ensures p.bucket < NEW_BUCKETS && p == m.cfg.NewPosIn(m.info[m.news[p]].addr, p.bucket) && p.slot < BUCKET_SIZE
  {
    var x := m.news[p];
    assert x in m.info;
  }

  // ---------------------------------------------------------------- all buckets, and the result

  lemma {:induction false} BucketPrefix(m: Man, b: nat, i: nat, j: nat)
    requires i <= j
    ensures Bucket(m, b, i) <= Bucket(m, b, j)
    decreases j
  {
    if i < j {
      BucketPrefix(m, b, i, j - 1);
    }
  }

  lemma {:induction false} LoadBucketBack(m: Man, t: Man, b: nat, i: nat)
    requires Inv(m) && b < NEW_BUCKETS && i <= BUCKET_SIZE && AllBack(m, t) && NewsBack(m, t, b, 0)
    ensures |Bucket(m, b, i)| <= |Serialize(m).buckets[b]|
    ensures var u := LoadBucket(t, Serialize(m), b, |Bucket(m, b, i)|); AllBack(m, u) && NewsBack(m, u, b, i)
  {
    hide Loose, AllBack, NewsBack, LoadIndex;
    BucketPrefix(m, b, i, BUCKET_SIZE);
    if i > 0 {
      LoadBucketBack(m, t, b, i - 1);
      var p := Pos(b, i - 1);
      var k := |Bucket(m, b, i - 1)|;
      var v := LoadBucket(t, Serialize(m), b, k);
      if p in m.news {
        SlotEntry(m, p);
        LoadIndexBack(m, v, b, i - 1);
        assert Serialize(m).buckets[b][k] == Bucket(m, b, i)[k];
      } else {
        SkipNewsBack(m, v, b, i - 1);
      }
    }
  }

  /** At the end of a bucket the next one begins. */
  lemma NextBucket(m: Man, t: Man, b: nat)
    requires Inv(m) && NewsBack(m, t, b, BUCKET_SIZE)
    ensures NewsBack(m, t, b + 1, 0)
  {
    hide AddrsOk, RandomOk, TriedOk, CountsOk, Settled;
    forall p ensures p in t.news <==> p in m.news && Before(p, b + 1, 0) {
      if p in m.news {
        SlotEntry(m, p);
      }
    }
  }

  lemma {:induction false} LoadBucketsBack(m: Man, t: Man, b: nat)
    requires Inv(m) && b <= NEW_BUCKETS && AllBack(m, t) && NewsBack(m, t, 0, 0)
    ensures var u := LoadBuckets(t, Serialize(m), b); AllBack(m, u) && NewsBack(m, u, b, 0)
  {
    hide Loose, AllBack, NewsBack;
    if b > 0 {
      LoadBucketsBack(m, t, b - 1);
      var v := LoadBuckets(t, Serialize(m), b - 1);
      LoadBucketBack(m, v, b - 1, BUCKET_SIZE);
      NextBucket(m, LoadBucket(v, Serialize(m), b - 1, |Serialize(m).buckets[b - 1]|), b - 1);
    }
  }

  lemma StartBuckets(m: Man, t: Man)
    requires Back(m, t, |Order(m)|) && t.idCount == |Order(m)|
    ensures AllBack(m, t) && NewsBack(m, t, 0, 0)
  {
    assert forall x :: Slots(t, x) == {};
  }

  /** Everything is back before the pruning. */
  lemma LoadBack(m: Man)
    requires Inv(m)
    ensures var t := Load(m.cfg, Serialize(m)); AllBack(m, t) && NewsBack(m, t, NEW_BUCKETS, 0)
  {
    hide Loose, Back, AllBack, NewsBack, LoadBuckets, LoadTried, LoadNew;
    var s := Serialize(m);
    LoadTriedBack(m, |s.tried|);
    var t := LoadTried(LoadNew(m.cfg, s, |s.news|).(idCount := |s.news|), s.tried, |s.tried|);
    assert |Order(m)| == |s.news| + |s.tried|;
    StartBuckets(m, t);
    LoadBucketsBack(m, t, NEW_BUCKETS);
  }

  /** Each entry holds the same new slots as before. */
  lemma SlotsBack(m: Man, t: Man, x: int)
    requires Inv(m) && AllBack(m, t) && NewsBack(m, t, NEW_BUCKETS, 0) && x in m.info
    ensures x >= 0 && NewId(m, x) in t.info && Slots(t, NewId(m, x)) == Slots(m, x)
    ensures t.info[NewId(m, x)].refCount == m.info[x].refCount
    ensures Restored(m.info[x], t.info[NewId(m, x)], NewId(m, x))
  {
    hide AddrsOk, RandomOk, TriedOk, CountsOk, Settled, AddrsBack, TriedBack, Order;
    OrderOfNewId(m, x);
    var r := NewId(m, x);
    assert r in t.info && Restored(m.info[Order(m)[r]], t.info[r], r);
    forall p ensures p in Slots(t, r) <==> p in Slots(m, x) {
      if p in m.news {
        SlotEntry(m, p);
        OrderOfNewId(m, m.news[p]);
      }
    }
    assert m.info[x].refCount == |Slots(m, x)|;
  }

  /** Nothing is left to prune. */
  lemma {:induction false} NothingPruned(m: Man, t: Man, n: nat)
    requires Inv(m) && AllBack(m, t) && NewsBack(m, t, NEW_BUCKETS, 0)
    ensures Prune(t, n) == t
  {
    hide Loose, NewsBack, AddrsBack, TriedBack, Order;
    if n > 0 {
      NothingPruned(m, t, n - 1);
      if n - 1 in t.info {
        var x := Order(m)[n - 1];
        NewIdOfOrder(m, n - 1);
        SlotsBack(m, t, x);
        NotBoth(m, x);
      }
    }
  }

  /** Main theorem: the round trip gives back every entry under its new id, with the same statistics,
      the same references and the same slots in both tables, and nothing else. */
  lemma RoundTrip(m: Man)
    requires Inv(m)
    ensures var t := Unserialize(m.cfg, Serialize(m));
            && |t.info| == |m.info| && t.nNew == m.nNew && t.nTried == m.nTried
            && (forall x :: x in m.info ==>
                  && x >= 0 && NewId(m, x) in t.info
                  && t.info[NewId(m, x)] == m.info[x].(lastTry := 0, lastCount := 0, randomPos := NewId(m, x)))
            && (forall p :: p in t.news <==> p in m.news)
            && (forall p :: p in m.news ==> m.news[p] in m.info && m.news[p] >= 0 && t.news[p] == NewId(m, m.news[p]))
            && (forall p :: p in t.tried <==> p in m.tried)
            && (forall p :: p in m.tried ==> m.tried[p] in m.info && m.tried[p] >= 0 && t.tried[p] == NewId(m, m.tried[p]))
  {
    hide Loose, NewsBack, Order, EntriesBack, AddrsBack, TriedBack, Serialize, Load;
    var t := Load(m.cfg, Serialize(m));
    LoadBack(m);
    NothingPruned(m, t, t.idCount);
    EntryCount(m, t);
    forall x | x in m.info ensures x >= 0 && NewId(m, x) in t.info
      ensures t.info[NewId(m, x)] == m.info[x].(lastTry := 0, lastCount := 0, randomPos := NewId(m, x))
    {
      SlotsBack(m, t, x);
    }
    TablesBack(m, t);
  }

  lemma EntryCount(m: Man, t: Man)
    requires Inv(m) && AllBack(m, t)
    ensures |t.info| == |m.info| == |Order(m)|
  {
    hide AddrsOk, RandomOk, TriedOk, NewsOk, CountsOk, TimesOk, AddrsBack, TriedBack, Settled, Serialize, Acceptable;
    SerializeAcceptable(m);
    CountsAddUp(m);
    assert t.info.Keys == Range(|Order(m)|);
  }

  function Range(n: nat): (r: set<int>)
    ensures |r| == n && forall i :: i in r <==> 0 <= i < n
  {
    if n == 0 then {} else Range(n - 1) + {n - 1}
  }

  lemma TablesBack(m: Man, t: Man)
    requires Inv(m) && AllBack(m, t) && NewsBack(m, t, NEW_BUCKETS, 0)
    ensures forall p :: p in t.news <==> p in m.news
    ensures forall p :: p in m.news ==> m.news[p] in m.info && m.news[p] >= 0 && t.news[p] == NewId(m, m.news[p])
    ensures forall p :: p in t.tried <==> p in m.tried
    ensures forall p :: p in m.tried ==> m.tried[p] in m.info && m.tried[p] >= 0 && t.tried[p] == NewId(m, m.tried[p])
  {
    hide AddrsOk, RandomOk, NewsOk, CountsOk, Settled, AddrsBack, NewId, Slots;
    forall p | p in m.news ensures p in t.news && m.news[p] in m.info && m.news[p] >= 0 {
      SlotEntry(m, p);
    }
    forall p | p in m.tried ensures p in t.tried && m.tried[p] in m.info && m.tried[p] >= 0 && t.tried[p] == NewId(m, m.tried[p]) {
      TriedSlotBack(m, t, p);
    }
    forall p | p in t.tried ensures p in m.tried {
      var i := t.tried[p];
      NewIdOfOrder(m, i);
      assert Restored(m.info[Order(m)[i]], t.info[i], i);
    }
  }

  lemma TriedSlotBack(m: Man, t: Man, p: Pos)
    requires Inv(m) && AllBack(m, t) && p in m.tried
    ensures p in t.tried && m.tried[p] in m.info && m.tried[p] >= 0 && t.tried[p] == NewId(m, m.tried[p])
  {
    hide AddrsOk, RandomOk, NewsOk, CountsOk, Settled, AddrsBack, Order;
    var x := m.tried[p];
    assert x in m.info;
    OrderOfNewId(m, x);
    var i := NewId(m, x);
    assert i in t.info && Restored(m.info[Order(m)[i]], t.info[i], i);
  }

  // ---------------------------------------------------------------- the invariant comes back

  lemma RandomBack(m: Man, t: Man)
    requires EntriesBack(m, t, |Order(m)|)
    ensures RandomOk(t)
  {
    hide Order;
    assert forall i :: i in t.info ==> t.info[i].randomPos == i;
  }

  lemma TriedOkBack(m: Man, t: Man)
    requires AllBack(m, t)
    ensures TriedOk(t)
  {
    hide Order, Restored, AddrsBack;
  }

  lemma NewsOkBack(m: Man, t: Man)
    requires Inv(m) && AllBack(m, t) && NewsBack(m, t, NEW_BUCKETS, 0)
    ensures NewsOk(t) && Settled(t, {})
  {
    hide Loose, Order, AddrsBack, TriedBack, NewId;
    forall i | i in t.info
      ensures t.info[i].refCount == |Slots(t, i)| && t.info[i].refCount <= NEW_BUCKETS_PER_ADDRESS
      ensures t.info[i].inTried || t.info[i].refCount > 0
    {
      NewIdOfOrder(m, i);
      SlotsBack(m, t, Order(m)[i]);
      NotBoth(m, Order(m)[i]);
      RefBound(m, Order(m)[i]);
    }
    forall p | p in t.news
      ensures t.news[p] in t.info && !t.info[t.news[p]].inTried && p.bucket < NEW_BUCKETS
      ensures p == t.cfg.NewPosIn(t.info[t.news[p]].addr, p.bucket)
    {
      SlotEntry(m, p);
      SlotsBack(m, t, m.news[p]);
    }
  }

  lemma RefBound(m: Man, id: int)
    requires Inv(m) && id in m.info
    ensures 0 <= m.info[id].refCount <= NEW_BUCKETS_PER_ADDRESS
  {}

  /** The entry at place `i` of the rebuilt manager. */
  lemma EntryBack(m: Man, t: Man, i: int)
    requires Inv(m) && AllBack(m, t) && i in t.info
    ensures 0 <= i < t.idCount && (t.info[i].inTried <==> i >= |Ids(m, false, m.idCount)|)
    ensures t.info[i].lastTry == 0 && t.info[i].lastSuccess >= 0 && (t.info[i].inTried ==> t.info[i].lastSuccess != 0)
  {
    hide AddrsOk, RandomOk, TriedOk, NewsOk, CountsOk, Settled, AddrsBack, TriedBack;
    NewIdOfOrder(m, i);
    assert Restored(m.info[Order(m)[i]], t.info[i], i);
  }

  lemma CountsBack(m: Man, t: Man)
    requires Inv(m) && AllBack(m, t)
    ensures CountsOk(t, 0) && TimesOk(t)
  {
    hide Loose, AddrsBack, TriedBack, Restored;
    SerializeAcceptable(m);
    var n, k := |Ids(m, false, m.idCount)|, |Order(m)|;
    forall i | i in t.info
      ensures 0 <= i < t.idCount && (t.info[i].inTried <==> i >= n)
      ensures t.info[i].lastTry == 0 && t.info[i].lastSuccess >= 0 && (t.info[i].inTried ==> t.info[i].lastSuccess != 0)
    {
      EntryBack(m, t, i);
    }
    assert NewIds(t) == Range(n);
    assert TriedIds(t) == Range(k) - Range(n);
  }

  /** The ports do not matter for looking addresses up. */
  predicate PortsAgree(m: Man) {
    m.cfg.byPort || forall id :: id in m.info ==> m.info[id].addr.port == 0
  }

  /** Addresses come back under their full port, so lookups work exactly when ports agree. */
  lemma AddrsBackIff(m: Man, t: Man)
    requires Inv(m) && AllBack(m, t)
    ensures AddrsOk(t) <==> PortsAgree(m)
  {
    hide Loose, Order, TriedBack;
    if PortsAgree(m) {
      forall i | i in t.info ensures t.cfg.Key(t.info[i].addr) == t.info[i].addr {
        NewIdOfOrder(m, i);
        assert Restored(m.info[Order(m)[i]], t.info[i], i);
      }
      forall k | k in t.addrs ensures t.addrs[k] in t.info && t.cfg.Key(t.info[t.addrs[k]].addr) == k {
        var i := t.addrs[k];
        assert i in t.info;
      }
    } else {
      var x :| x in m.info && m.info[x].addr.port != 0;
      OrderOfNewId(m, x);
      var i := NewId(m, x);
      assert i in t.info && Restored(m.info[Order(m)[i]], t.info[i], i);
      assert t.info[i].addr in t.addrs;
    }
  }

  /** The rebuilt manager satisfies the invariant exactly when ports are told apart or all zero. */
  lemma RoundTripInvIff(m: Man)
    requires Inv(m)
    ensures Inv(Unserialize(m.cfg, Serialize(m))) <==> PortsAgree(m)
  {
    hide AddrsOk, RandomOk, TriedOk, NewsOk, CountsOk, Settled, TimesOk, AllBack, NewsBack, Order, Serialize, Load, PortsAgree;
    var t := Load(m.cfg, Serialize(m));
    LoadBack(m);
    NothingPruned(m, t, t.idCount);
    AddrsBackIff(m, t);
    AllBackParts(m, t);
    RandomBack(m, t);
    TriedOkBack(m, t);
    NewsOkBack(m, t);
    CountsBack(m, t);
  }

  lemma AllBackParts(m: Man, t: Man)
    requires AllBack(m, t)
    ensures EntriesBack(m, t, |Order(m)|)
  {}

  /** With ports ignored on lookup, one entry with a real port is enough to break the rebuilt manager. */
  lemma RoundTripCanFail(cfg: Config, a: Address, source: int, now: int)
    requires !cfg.byPort && a.service.port != 0
    ensures Inv(Empty(cfg)) && !Inv(Unserialize(cfg, Serialize(Add(Empty(cfg), a, source, 0, now, 0, true).0)))
  {
    EmptyInv(cfg);
    var m := Add(Empty(cfg), a, source, 0, now, 0, true).0;
    AddKeeps(Empty(cfg), a, source, 0, now, 0, true);
    AddUnknownEffect(Empty(cfg), a, source, 0, now);
    AddedIsThere(cfg, a, source, now);
    RoundTripInvIff(m);
  }

  lemma AddedIsThere(cfg: Config, a: Address, source: int, now: int)
    requires Inv(Empty(cfg))
    ensures var m := Add(Empty(cfg), a, source, 0, now, 0, true).0; 0 in m.info && m.info[0].addr == a.service && m.cfg == cfg
  {
    var c := Created(Empty(cfg), a, source, 0);
    CreatedKeeps(Empty(cfg), a, source, 0);
    var p := cfg.NewPos(a.service, source);
    ClearNewEffect(c, p);
  }
}
