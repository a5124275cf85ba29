/** Reading and writing the address manager object, loop by loop. */
module AddrManStream {
  import opened Prelude
  import opened AddrMan
  import opened AddrManRun
  import opened AddrManager
  import opened AddrManSerial

  // ---------------------------------------------------------------- writing

  method WriteRecords(a: AddrManager, tried: bool) returns (rs: seq<Record>, index: map<int, int>)
    ensures (forall i :: 0 <= i < |Ids(a.Value(), tried, a.idCount)| ==> Ids(a.Value(), tried, a.idCount)[i] in a.info)
    ensures rs == Records(a.Value(), Ids(a.Value(), tried, a.idCount))
    ensures forall id :: id in a.info && 0 <= id < a.idCount ==> id in index && index[id] == Rank(a.Value(), tried, id)
  {
    ghost var m := a.Value();
    rs, index := [], map[];
    for n := 0 to a.idCount
      invariant forall i :: 0 <= i < |Ids(m, tried, n)| ==> Ids(m, tried, n)[i] in m.info
      invariant rs == Records(m, Ids(m, tried, n))
      invariant forall id :: id in m.info && 0 <= id < n ==> id in index && index[id] == Rank(m, tried, id)
    {
      if n in a.info {
        index := index[n := |rs|];
        if Listed(a.info[n], tried) {
          rs := rs + [RecordOf(a.info[n])];
        }
      }
    }
  }

  method WriteBucket(a: AddrManager, index: map<int, int>, b: nat) returns (out: seq<int>)
    requires a.Shape() && Inv(a.Value()) && b < NEW_BUCKETS
    requires forall id :: id in a.info && 0 <= id < a.idCount ==> id in index && index[id] == Rank(a.Value(), false, id)
    ensures out == Bucket(a.Value(), b, BUCKET_SIZE)
  {
    hide Loose, Rank;
    ghost var m := a.Value();
    out := [];
    for i := 0 to BUCKET_SIZE
      invariant out == Bucket(m, b, i)
    {
      var id := a.vvNew[b, i];
      assert id != -1 <==> Pos(b, i) in m.news;
      if id != -1 {
        SlotEntry(m, Pos(b, i));
        IdBelow(m, id);
        out := out + [index[id]];
      }
    }
  }

  lemma IdBelow(m: Man, id: int)
    requires Inv(m) && id in m.info
    ensures 0 <= id < m.idCount
  {}

  method Serialize(a: AddrManager) returns (s: Stream)
    requires a.Shape() && Inv(a.Value())
    ensures s == AddrManSerial.Serialize(a.Value())
  {
    hide Loose, Rank, Ids;
    var news, index := WriteRecords(a, false);
    var tried, _ := WriteRecords(a, true);
    var buckets: seq<seq<int>> := [];
    for b := 0 to NEW_BUCKETS
      invariant |buckets| == b && forall k :: 0 <= k < b ==> buckets[k] == Bucket(a.Value(), k, BUCKET_SIZE)
    {
      var one := WriteBucket(a, index, b);
      buckets := buckets + [one];
    }
    s := Stream(true, a.nNew, a.nTried, news, tried, buckets);
  }

  // ---------------------------------------------------------------- reading any stream

  /** Entries 0 to n - 1, in this order. */
  ghost predicate InOrder(m: Man, n: nat) {
    && |m.random| == n && RandomOk(m) && m.tried == map[] && m.idCount == 0
    && forall i :: i in m.info <==> 0 <= i < n
  }

  lemma LoadNewOneInOrder(m: Man, r: Record, n: nat)
    requires InOrder(m, n)
    ensures InOrder(LoadNewOne(m, r, n), n + 1)
  {}

  lemma FallbackInOrder(m: Man, id: int, n: nat)
    requires InOrder(m, n) && id in m.info
    ensures InOrder(Fallback(m, id), n) && Fallback(m, id).cfg == m.cfg
  {
    hide RandomOk;
    RefRandom(m, m.cfg.NewPos(m.info[id].addr, m.info[id].source), id, m.info[id].refCount + 1);
  }

  lemma {:induction false} LoadNewRandom(cfg: Config, s: Stream, n: nat)
    requires n <= |s.news|
    ensures InOrder(LoadNew(cfg, s, n), n) && LoadNew(cfg, s, n).cfg == cfg
  {
    if n > 0 {
      hide InOrder, Fallback;
      LoadNewRandom(cfg, s, n - 1);
      var t := LoadNewOne(LoadNew(cfg, s, n - 1), s.news[n - 1], n - 1);
      LoadNewOneInOrder(LoadNew(cfg, s, n - 1), s.news[n - 1], n - 1);
      FallbackInOrder(t, n - 1, n);
    }
  }

  lemma {:induction false} LoadTriedRandom(m: Man, rs: seq<Record>, n: nat)
    requires n <= |rs| && RandomOk(m) && (forall i :: i in m.info ==> 0 <= i < m.idCount)
    ensures var t := LoadTried(m, rs, n);
            t.cfg == m.cfg && RandomOk(t) && forall i :: i in t.info ==> 0 <= i < t.idCount
  {
    if n > 0 {
      LoadTriedRandom(m, rs, n - 1);
    }
  }

  lemma RefRandom(m: Man, p: Pos, id: int, n: int)
    requires RandomOk(m) && id in m.info
    ensures RandomOk(Ref(m, p, id, n)) && forall i :: i in Ref(m, p, id, n).info <==> i in m.info
  {
    RandomFrame(m, Ref(m, p, id, n));
  }

  lemma {:induction false} LoadBucketRandom(m: Man, s: Stream, b: nat, n: nat)
    requires b < |s.buckets| && n <= |s.buckets[b]| && RandomOk(m)
    ensures var t := LoadBucket(m, s, b, n);
            t.cfg == m.cfg && t.idCount == m.idCount && RandomOk(t) && forall i :: i in t.info <==> i in m.info
  {
    hide RandomOk;
    if n > 0 {
      LoadBucketRandom(m, s, b, n - 1);
      var t := LoadBucket(m, s, b, n - 1);
      var x := s.buckets[b][n - 1];
      if x in t.info {
        RefRandom(t, t.cfg.NewPosIn(t.info[x].addr, b), x, t.info[x].refCount + 1);
      }
    }
  }

  lemma {:induction false} LoadBucketsRandom(m: Man, s: Stream, b: nat)
    requires b <= |s.buckets| && RandomOk(m)
    ensures var t := LoadBuckets(m, s, b);
            t.cfg == m.cfg && t.idCount == m.idCount && RandomOk(t) && forall i :: i in t.info <==> i in m.info
  {
    hide RandomOk, LoadBucket;
    if b > 0 {
      LoadBucketsRandom(m, s, b - 1);
      LoadBucketRandom(LoadBuckets(m, s, b - 1), s, b - 1, |s.buckets[b - 1]|);
    }
  }

  /** Whatever the stream says, pruning meets no failing assert of `Delete`. */
  lemma {:induction false} PruneAllowed(m: Man, n: nat)
    requires RandomOk(m)
    ensures var t := Prune(m, n); RandomOk(t) && t.cfg == m.cfg
    ensures var t := Prune(m, n); forall id :: id in t.info && Pruned(t.info[id]) ==> CanDelete(t, id)
  {
    if n > 0 {
      PruneAllowed(m, n - 1);
      var t := Prune(m, n - 1);
      if n - 1 in t.info && Pruned(t.info[n - 1]) {
        DeleteRandom(t, n - 1);
      }
    }
    var t := Prune(m, n);
    forall id | id in t.info && Pruned(t.info[id]) ensures CanDelete(t, id) {
      DeleteAllowed(t, id);
    }
  }

  lemma RandomInRange(m: Man, id: int)
    requires RandomOk(m) && id in m.info
    ensures 0 <= m.info[id].randomPos < |m.random|
  {}

  lemma DeleteRandom(m: Man, id: int)
    requires RandomOk(m) && id in m.info && Pruned(m.info[id])
    ensures CanDelete(m, id) && RandomOk(Delete(m, id)) && Delete(m, id).cfg == m.cfg
  {
    hide RandomOk, CanSwap, CanDelete, SwapRandom, OnlyMoved;
    DeleteAllowed(m, id);
    RandomInRange(m, id);
    SwapRandomOk(m, m.info[id].randomPos, |m.random| - 1);
    SwapEffect(m, m.info[id].randomPos, |m.random| - 1);
    DropRandom(SwapRandom(m, m.info[id].randomPos, |m.random| - 1), id);
  }

  /** No more records than announced; a stream that ends early has fewer. */
  predicate Framed(s: Stream) {
    |s.news| <= s.nNew && |s.tried| <= s.nTried && (s.sameLayout ==> |s.buckets| <= NEW_BUCKETS)
  }

  method ReadNew(a: AddrManager, s: Stream)
    requires a.Shape() && a.Value() == Empty(a.cfg)
    modifies a, a.vvNew
    ensures a.Value() == LoadNew(a.cfg, s, |s.news|).(idCount := |s.news|)
  {
    hide Fallback, InOrder, LoadNewOne;
    a.nNew, a.nTried := s.nNew, s.nTried;
    for n := 0 to |s.news|
      invariant a.Value() == LoadNew(a.cfg, s, n)
    {
      ReadNewOne(a, s.news[n], n);
      if !s.sameLayout {
        PlaceBySource(a, n);
      }
    }
    a.idCount := |s.news|;
  }

  method ReadNewOne(a: AddrManager, r: Record, id: nat)
    modifies a
    ensures a.Value() == LoadNewOne(old(a.Value()), r, id)
  {
    a.info := a.info[id := Entry(r, -1, false)];
    a.addrs := a.addrs[r.addr := id];
    a.info := a.info[id := a.info[id].(randomPos := |a.random|)];
    a.random := a.random + [id];
  }

  method PlaceBySource(a: AddrManager, id: nat)
    requires a.Shape() && id in a.info
    modifies a, a.vvNew
    ensures a.Value() == Fallback(old(a.Value()), id)
  {
    var p := a.cfg.NewPos(a.info[id].addr, a.info[id].source);
    assert a.vvNew[p.bucket, p.slot] == -1 <==> p !in TableOf(a.vvNew);
    if a.vvNew[p.bucket, p.slot] == -1 {
      a.Refer(id, p, a.info[id].refCount + 1);
    }
  }

  method ReadTriedOne(a: AddrManager, r: Record)
    requires a.Shape()
    modifies a, a.vvTried
    ensures a.Value() == LoadTriedOne(old(a.Value()), r)
  {
    var p := a.cfg.TriedPos(r.addr);
    assert a.vvTried[p.bucket, p.slot] == -1 <==> p !in TableOf(a.vvTried);
    if a.vvTried[p.bucket, p.slot] == -1 {
      var id := a.idCount;
      a.random := a.random + [id];
      a.info := a.info[id := Entry(r, |a.random| - 1, true)];
      a.addrs := a.addrs[r.addr := id];
      SetSlot(a.vvTried, p, id);
      a.idCount := id + 1;
    } else {
      a.nTried := a.nTried - 1;
    }
  }

  method ReadTried(a: AddrManager, rs: seq<Record>)
    requires a.Shape()
    modifies a, a.vvTried
    ensures a.Value() == LoadTried(old(a.Value()), rs, |rs|)
  {
    hide LoadTriedOne;
    for n := 0 to |rs|
      invariant a.Value() == LoadTried(old(a.Value()), rs, n)
    {
      ReadTriedOne(a, rs[n]);
    }
  }

  method ReadIndex(a: AddrManager, s: Stream, b: nat, index: int)
    requires a.Shape() && (s.sameLayout ==> b < NEW_BUCKETS)
    modifies a, a.vvNew
    ensures a.Value() == LoadIndex(old(a.Value()), s, b, index)
  {
    if 0 <= index < s.nNew && index in a.info {
      var p := a.cfg.NewPosIn(a.info[index].addr, b);
      assert s.sameLayout ==> (a.vvNew[p.bucket, p.slot] == -1 <==> p !in TableOf(a.vvNew));
      if s.sameLayout && a.vvNew[p.bucket, p.slot] == -1 && a.info[index].refCount < NEW_BUCKETS_PER_ADDRESS {
        a.Refer(index, p, a.info[index].refCount + 1);
      }
    }
  }

  method ReadBuckets(a: AddrManager, s: Stream)
    requires a.Shape() && (s.sameLayout ==> |s.buckets| <= NEW_BUCKETS)
    modifies a, a.vvNew
    ensures a.Value() == LoadBuckets(old(a.Value()), s, |s.buckets|)
  {
    hide LoadIndex;
    for b := 0 to |s.buckets|
      invariant a.Value() == LoadBuckets(old(a.Value()), s, b)
    {
      ghost var t := a.Value();
      for n := 0 to |s.buckets[b]|
        invariant a.Value() == LoadBucket(t, s, b, n)
      {
        ReadIndex(a, s, b, s.buckets[b][n]);
      }
    }
  }

  method PruneAll(a: AddrManager)
    requires RandomOk(a.Value())
    modifies a
    ensures a.Value() == Prune(old(a.Value()), old(a.idCount))
  {
    hide RandomOk, Delete, CanDelete;
    for n := 0 to a.idCount
      invariant a.Value() == Prune(old(a.Value()), n)
    {
      PruneAllowed(old(a.Value()), n);
      if n in a.info && !a.info[n].inTried && a.info[n].refCount == 0 {
        a.Delete(n);
      }
    }
  }

  /** Reading into a fresh manager; fails exactly when an announced count is over its limit or the stream ends early,
    * within its records or, as `cut` tells, within its bucket lists.
    */
  method Unserialize(a: AddrManager, s: Stream, cut: bool) returns (failed: bool)
    requires a.Shape() && a.Value() == Empty(a.cfg) && Framed(s)
    modifies a, a.vvNew, a.vvTried
    ensures failed <==> || s.nNew > NEW_BUCKETS * BUCKET_SIZE || s.nTried > TRIED_BUCKETS * BUCKET_SIZE
                        || |s.news| < s.nNew || |s.tried| < s.nTried || cut
    ensures !failed ==> a.Value() == AddrManSerial.Unserialize(a.cfg, s)
  {
    if s.nNew > NEW_BUCKETS * BUCKET_SIZE || s.nTried > TRIED_BUCKETS * BUCKET_SIZE { return true; }
    LoadRandom(a.cfg, s);
    ReadNew(a, s);
    if |s.news| < s.nNew { return true; }
    ReadTried(a, s.tried);
    if |s.tried| < s.nTried { return true; }
    ReadBuckets(a, s);
    if cut { return true; }
    PruneAll(a);
    failed := false;
  }

  lemma LoadRandom(cfg: Config, s: Stream)
    ensures RandomOk(Load(cfg, s))
  {
    hide RandomOk, LoadTried, LoadBuckets;
    LoadNewRandom(cfg, s, |s.news|);
    var m := LoadNew(cfg, s, |s.news|);
    var t := m.(idCount := |s.news|);
    RandomFrame(m, t);
    LoadTriedRandom(t, s.tried, |s.tried|);
    LoadBucketsRandom(LoadTried(t, s.tried, |s.tried|), s, |s.buckets|);
  }
}
