/** Reading any address file: what comes of one whose bucket lists cannot be used, and of one that contradicts itself. */
module AddrManLoad {
  import opened Prelude
  import opened AddrMan
  import opened AddrManRun
  import opened AddrManSerial
  import opened AddrManStream

  // ---------------------------------------------------------------- without bucket lists

  function PosOf(cfg: Config, r: Record): Pos { cfg.NewPos(r.addr, r.source) }

  /** No earlier record wants the same slot. */
  predicate First(cfg: Config, rs: seq<Record>, k: nat)
    requires k < |rs|
  {
    forall j :: 0 <= j < k ==> PosOf(cfg, rs[j]) != PosOf(cfg, rs[k])
  }

  predicate Wanted(cfg: Config, rs: seq<Record>, n: nat, p: Pos)
    requires n <= |rs|
  {
    exists k :: 0 <= k < n && PosOf(cfg, rs[k]) == p
  }

  /** The first `n` records are entries, and each slot that any of them wants has gone to the first that does. */
  ghost predicate Dealt(cfg: Config, rs: seq<Record>, n: nat, m: Man)
    requires n <= |rs|
  {
    && m.cfg == cfg && (forall k :: k in m.info <==> 0 <= k < n)
    && (forall k :: 0 <= k < n ==> k in m.info && !m.info[k].inTried && m.info[k].refCount == if First(cfg, rs, k) then 1 else 0)
    && (forall p :: p in m.news <==> Wanted(cfg, rs, n, p))
  }

  lemma WantedNext(cfg: Config, rs: seq<Record>, n: nat, p: Pos)
    requires n < |rs|
    ensures Wanted(cfg, rs, n + 1, p) <==> Wanted(cfg, rs, n, p) || PosOf(cfg, rs[n]) == p
    ensures First(cfg, rs, n) <==> !Wanted(cfg, rs, n, PosOf(cfg, rs[n]))
  {
    if PosOf(cfg, rs[n]) == p { assert 0 <= n < n + 1; }
  }

  lemma {:induction false} LoadNewDeals(cfg: Config, s: Stream, n: nat)
    requires !s.sameLayout && n <= |s.news|
    ensures Dealt(cfg, s.news, n, LoadNew(cfg, s, n))
  {
    hide Dealt, Fallback, LoadNewOne;
    if n == 0 {
      NothingDealt(cfg, s);
    } else {
      LoadNewDeals(cfg, s, n - 1);
      DealNext(cfg, s.news, n - 1, LoadNew(cfg, s, n - 1));
    }
  }

  lemma NothingDealt(cfg: Config, s: Stream)
    ensures Dealt(cfg, s.news, 0, LoadNew(cfg, s, 0))
  {}

  lemma DealNext(cfg: Config, rs: seq<Record>, n: nat, m: Man)
    requires n < |rs| && Dealt(cfg, rs, n, m)
    ensures var t := LoadNewOne(m, rs[n], n); Dealt(cfg, rs, n + 1, Fallback(t, n))
  {
    hide First, Wanted;
    var t := Fallback(LoadNewOne(m, rs[n], n), n);
    var q := PosOf(cfg, rs[n]);
    WantedNext(cfg, rs, n, q);
    forall p ensures p in t.news <==> Wanted(cfg, rs, n + 1, p) { WantedNext(cfg, rs, n, p); }
  }

  lemma {:induction false} LoadTriedKeepsNew(m: Man, rs: seq<Record>, n: nat, k: int)
    requires n <= |rs| && k in m.info && k < m.idCount
    ensures var t := LoadTried(m, rs, n); k in t.info && t.info[k] == m.info[k] && t.idCount >= m.idCount
  {
    if n > 0 { LoadTriedKeepsNew(m, rs, n - 1, k); }
  }

  /** Tried entries whose slot is taken are lost, and the counter says how many are left. */
  lemma {:induction false} LoadTriedCounts(m: Man, rs: seq<Record>, n: nat)
    requires n <= |rs|
    ensures var t := LoadTried(m, rs, n); t.nTried == m.nTried - n + |t.tried| - |m.tried|
  {
    hide LoadTriedOne;
    if n > 0 {
      LoadTriedCounts(m, rs, n - 1);
      LoadTriedOneCounts(LoadTried(m, rs, n - 1), rs[n - 1]);
    }
  }

  lemma LoadTriedOneCounts(m: Man, r: Record)
    ensures var t := LoadTriedOne(m, r); t.nTried - |t.tried| == m.nTried - 1 - |m.tried|
  {
    var p := m.cfg.TriedPos(r.addr);
    if p !in m.tried { OneMore(m.tried, p, m.idCount); }
  }

  lemma OneMore(t: map<Pos, int>, p: Pos, id: int)
    requires p !in t
    ensures |t[p := id]| == |t| + 1
  {
    assert t[p := id].Keys == t.Keys + {p};
  }

  lemma {:induction false} LoadBucketUnused(m: Man, s: Stream, b: nat, n: nat)
    requires !s.sameLayout && b < |s.buckets| && n <= |s.buckets[b]|
    ensures LoadBucket(m, s, b, n) == m
  {
    if n > 0 { LoadBucketUnused(m, s, b, n - 1); }
  }

  lemma {:induction false} LoadBucketsUnused(m: Man, s: Stream, b: nat)
    requires !s.sameLayout && b <= |s.buckets|
    ensures LoadBuckets(m, s, b) == m
  {
    if b > 0 {
      LoadBucketsUnused(m, s, b - 1);
      LoadBucketUnused(m, s, b - 1, |s.buckets[b - 1]|);
    }
  }

  /** Pruning removes exactly the entries below `n` that are in no table, and changes no other. */
  lemma {:induction false} PruneIsExact(m: Man, n: nat, k: int)
    requires RandomOk(m)
    ensures var t := Prune(m, n);
            && (k in t.info <==> k in m.info && !(0 <= k < n && Pruned(m.info[k])))
            && (k in t.info ==> OnlyMoved(m.info[k], t.info[k]))
  {
    hide RandomOk, Delete, CanDelete;
    if n > 0 {
      PruneIsExact(m, n - 1, k);
      PruneIsExact(m, n - 1, n - 1);
      PruneAllowed(m, n - 1);
      var t := Prune(m, n - 1);
      if n - 1 in t.info && Pruned(t.info[n - 1]) {
        DeleteEffect(t, n - 1);
        if k in Delete(t, n - 1).info { assert OnlyMoved(t.info[k], Delete(t, n - 1).info[k]); }
      }
    }
  }

  /** Without usable bucket lists a new entry survives if and only if no earlier one wants the slot of its source. */
  lemma OldFormatIff(cfg: Config, s: Stream, k: nat)
    requires !s.sameLayout && k < |s.news|
    ensures var t := AddrManSerial.Unserialize(cfg, s);
            && (k in t.info <==> First(cfg, s.news, k))
            && (k in t.info ==> t.info[k].refCount == 1 && !t.info[k].inTried)
  {
    hide Prune, LoadTried, LoadBuckets, RandomOk;
    LoadNewDeals(cfg, s, |s.news|);
    var m := LoadNew(cfg, s, |s.news|).(idCount := |s.news|);
    LoadTriedKeepsNew(m, s.tried, |s.tried|, k);
    var u := LoadTried(m, s.tried, |s.tried|);
    LoadBucketsUnused(u, s, |s.buckets|);
    LoadRandom(cfg, s);
    PruneIsExact(Load(cfg, s), Load(cfg, s).idCount, k);
  }

  // ---------------------------------------------------------------- whatever the file says

  ghost predicate Bounded(m: Man) { forall id :: id in m.info ==> 0 <= m.info[id].refCount <= 8 }

  lemma {:induction false} LoadNewBounded(cfg: Config, s: Stream, n: nat)
    requires n <= |s.news|
    ensures Bounded(LoadNew(cfg, s, n))
  {
    if n > 0 { LoadNewBounded(cfg, s, n - 1); }
  }

  lemma {:induction false} LoadTriedBounded(m: Man, rs: seq<Record>, n: nat)
    requires n <= |rs| && Bounded(m)
    ensures Bounded(LoadTried(m, rs, n))
  {
    if n > 0 { LoadTriedBounded(m, rs, n - 1); }
  }

  lemma {:induction false} LoadBucketBounded(m: Man, s: Stream, b: nat, n: nat)
    requires b < |s.buckets| && n <= |s.buckets[b]| && Bounded(m)
    ensures Bounded(LoadBucket(m, s, b, n))
  {
    if n > 0 { LoadBucketBounded(m, s, b, n - 1); }
  }

  lemma {:induction false} LoadBucketsBounded(m: Man, s: Stream, b: nat)
    requires b <= |s.buckets| && Bounded(m)
    ensures Bounded(LoadBuckets(m, s, b))
  {
    hide LoadBucket, Bounded;
    if b > 0 {
      LoadBucketsBounded(m, s, b - 1);
      LoadBucketBounded(LoadBuckets(m, s, b - 1), s, b - 1, |s.buckets[b - 1]|);
    }
  }

  lemma LoadedIds(cfg: Config, s: Stream, id: int)
    ensures id in Load(cfg, s).info ==> 0 <= id < Load(cfg, s).idCount
  {
    hide RandomOk, LoadTried, LoadBuckets;
    LoadNewRandom(cfg, s, |s.news|);
    var m := LoadNew(cfg, s, |s.news|);
    var t := m.(idCount := |s.news|);
    RandomFrame(m, t);
    LoadTriedRandom(t, s.tried, |s.tried|);
    LoadBucketsRandom(LoadTried(t, s.tried, |s.tried|), s, |s.buckets|);
  }

  /** Whatever the bucket lists of a file say, every entry ends up in a table, with eight references at most. */
  lemma LoadedIsBounded(cfg: Config, s: Stream, id: int)
    requires id in AddrManSerial.Unserialize(cfg, s).info
    ensures var i := AddrManSerial.Unserialize(cfg, s).info[id]; 0 <= i.refCount <= 8 && (i.inTried || i.refCount > 0)
  {
    hide Prune, LoadNew, LoadTried, LoadBuckets, RandomOk;
    LoadNewBounded(cfg, s, |s.news|);
    var m := LoadNew(cfg, s, |s.news|).(idCount := |s.news|);
    LoadTriedBounded(m, s.tried, |s.tried|);
    LoadBucketsBounded(LoadTried(m, s.tried, |s.tried|), s, |s.buckets|);
    LoadRandom(cfg, s);
    LoadedIds(cfg, s, id);
    PruneIsExact(Load(cfg, s), Load(cfg, s).idCount, id);
  }
}
