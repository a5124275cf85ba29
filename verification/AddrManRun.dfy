/** Moving entries to the tried table, the remaining operations, and runs of the address manager. */
module AddrManRun {
  import opened Prelude
  import opened AddrMan

  // ---------------------------------------------------------------- MakeTried

  /** The new slots `MakeTried` empties: in each bucket, the entry's own position if it holds the entry. */
  function OwnSlots(m: Man, id: int): set<Pos>
    requires id in m.info
  {
    set p | p in m.news && m.news[p] == id && p.bucket < NEW_BUCKETS && p == m.cfg.NewPosIn(m.info[id].addr, p.bucket)
  }

  /** The entry leaves the new table. */
  function Uproot(m: Man, id: int): Man
    requires id in m.info
  {
    m.(news := m.news - OwnSlots(m, id),
       info := m.info[id := m.info[id].(refCount := m.info[id].refCount - |OwnSlots(m, id)|)],
       nNew := m.nNew - 1)
  }

  /** The tried entry at `p` leaves the tried table. */
  function Demote(m: Man, p: Pos): Man
    requires p in m.tried && m.tried[p] in m.info
  {
    var id := m.tried[p];
    m.(info := m.info[id := m.info[id].(inTried := false)], tried := m.tried - {p}, nTried := m.nTried - 1)
  }

  /** ... and enters the new table again, in the slot of its own source. */
  predicate CanReplant(m: Man, id: int) {
    && id in m.info
    && CanClear(m, m.cfg.NewPos(m.info[id].addr, m.info[id].source))
    && id in ClearNew(m, m.cfg.NewPos(m.info[id].addr, m.info[id].source)).info
  }

  function Replant(m: Man, id: int): Man
    requires CanReplant(m, id)
  {
    var p := m.cfg.NewPos(m.info[id].addr, m.info[id].source);
    Ref(ClearNew(m, p), p, id, 1).(nNew := ClearNew(m, p).nNew + 1)
  }

  /** The asserts on the way: the entry exists, an evicted entry exists and can be moved. */
  predicate CanMakeTried(m: Man, id: int) {
    && id in m.info
    && var u := Uproot(m, id); var p := m.cfg.TriedPos(m.info[id].addr);
       u.info[id].refCount == 0 && (p in u.tried ==> u.tried[p] in m.info && CanReplant(Demote(u, p), u.tried[p]))
  }

  /** The tables once slot `p` is free for `id`. */
  function MakeRoom(u: Man, p: Pos): Man
    requires p in u.tried ==> u.tried[p] in u.info && CanReplant(Demote(u, p), u.tried[p])
  {
    if p in u.tried then Replant(Demote(u, p), u.tried[p]) else u
  }

  function Promote(m: Man, id: int, p: Pos): Man
    requires id in m.info
  {
    m.(info := m.info[id := m.info[id].(inTried := true)], tried := m.tried[p := id], nTried := m.nTried + 1)
  }

  function MakeTried(m: Man, id: int): Man
    requires CanMakeTried(m, id) && id in MakeRoom(Uproot(m, id), m.cfg.TriedPos(m.info[id].addr)).info
  {
    var p := m.cfg.TriedPos(m.info[id].addr);
    Promote(MakeRoom(Uproot(m, id), p), id, p)
  }

  lemma UprootNews(m: Man, id: int)
    requires NewsOk(m) && id in m.info
    ensures OwnSlots(m, id) == Slots(m, id)
    ensures NewsOk(Uproot(m, id)) && Uproot(m, id).info[id].refCount == 0 && Slots(Uproot(m, id), id) == {}
  {
    var u := Uproot(m, id);
    assert OwnSlots(m, id) == Slots(m, id);
    assert Slots(u, id) == {};
    forall x | x in u.info ensures u.info[x].refCount == |Slots(u, x)| && u.info[x].refCount <= NEW_BUCKETS_PER_ADDRESS {
      if x != id {
        assert x in m.info && Slots(u, x) == Slots(m, x);
      }
    }
    forall q | q in u.news
      ensures u.news[q] in u.info && !u.info[u.news[q]].inTried && q.bucket < NEW_BUCKETS
      ensures q == u.cfg.NewPosIn(u.info[u.news[q]].addr, q.bucket)
    {
      var x := m.news[q];
      assert x in m.info && x == u.news[q];
    }
  }

  lemma UprootCounts(m: Man, id: int)
    requires CountsOk(m, 0) && id in m.info
    ensures CountsOk(Uproot(m, id), 1)
  {
    var u := Uproot(m, id);
    assert forall x :: x in u.info <==> x in m.info;
    assert forall x :: x in m.info ==> u.info[x].inTried == m.info[x].inTried;
    assert TriedIds(u) == TriedIds(m) && NewIds(u) == NewIds(m);
  }

  lemma UprootKeeps(m: Man, id: int)
    requires Inv(m) && id in m.info && !m.info[id].inTried
    ensures Loose(Uproot(m, id), {id}, 1) && Uproot(m, id).info[id].refCount == 0
  {
    hide AddrsOk, RandomOk, TriedOk, NewsOk, CountsOk, TimesOk, Settled, Uproot;
    UprootNews(m, id);
    UprootCounts(m, id);
    UprootRest(m, id);
  }

  lemma UprootRest(m: Man, id: int)
    requires AddrsOk(m) && RandomOk(m) && TriedOk(m) && TimesOk(m) && Settled(m, {}) && id in m.info
    ensures var u := Uproot(m, id); AddrsOk(u) && RandomOk(u) && TriedOk(u) && TimesOk(u) && Settled(u, {id})
  {
    hide AddrsOk, RandomOk, TriedOk;
    var u := Uproot(m, id);
    AddrsFrame(m, u);
    RandomFrame(m, u);
    TriedFrame(m, u);
  }

  lemma DemoteTables(m: Man, p: Pos)
    requires TriedOk(m) && NewsOk(m) && p in m.tried && m.tried[p] in m.info
    ensures TriedOk(Demote(m, p)) && NewsOk(Demote(m, p))
  {
    var id := m.tried[p];
    var d := Demote(m, p);
    forall q | q in d.tried
      ensures d.tried[q] in d.info && d.info[d.tried[q]].inTried && q == d.cfg.TriedPos(d.info[d.tried[q]].addr)
    {
      var x := m.tried[q];
      assert x in m.info && x == d.tried[q];
      assert x == id ==> q == p;
    }
    forall x | x in d.info && d.info[x].inTried
      ensures d.cfg.TriedPos(d.info[x].addr) in d.tried && d.tried[d.cfg.TriedPos(d.info[x].addr)] == x
    {
      assert x in m.info && x != id;
    }
    assert forall x :: Slots(d, x) == Slots(m, x);
    forall q | q in d.news
      ensures d.news[q] in d.info && !d.info[d.news[q]].inTried && q.bucket < NEW_BUCKETS
      ensures q == d.cfg.NewPosIn(d.info[d.news[q]].addr, q.bucket)
    {
      var x := m.news[q];
      assert x in m.info && x == d.news[q];
    }
  }

  lemma DemoteCounts(m: Man, p: Pos, uncounted: nat)
    requires TriedOk(m) && CountsOk(m, uncounted) && p in m.tried && m.tried[p] in m.info
    ensures CountsOk(Demote(m, p), uncounted + 1)
  {
    var id := m.tried[p];
    var d := Demote(m, p);
    assert forall x :: x in d.info <==> x in m.info;
    assert m.info[id].inTried;
    assert TriedIds(d) == TriedIds(m) - {id};
    assert NewIds(d) == NewIds(m) + {id};
  }

  lemma DemoteKeeps(m: Man, p: Pos, limbo: set<int>, uncounted: nat)
    requires Loose(m, limbo, uncounted) && p in m.tried
    ensures m.tried[p] in m.info && m.info[m.tried[p]].inTried
    ensures Loose(Demote(m, p), limbo + {m.tried[p]}, uncounted + 1)
  {
    hide AddrsOk, RandomOk, NewsOk, CountsOk, TimesOk, Settled, Demote;
    DemoteTables(m, p);
    DemoteCounts(m, p, uncounted);
    DemoteRest(m, p, limbo);
  }

  lemma DemoteRest(m: Man, p: Pos, limbo: set<int>)
    requires AddrsOk(m) && RandomOk(m) && TimesOk(m) && Settled(m, limbo) && p in m.tried && m.tried[p] in m.info
    ensures var d := Demote(m, p); AddrsOk(d) && RandomOk(d) && TimesOk(d) && Settled(d, limbo + {m.tried[p]})
  {
    hide AddrsOk, RandomOk;
    AddrsFrame(m, Demote(m, p));
    RandomFrame(m, Demote(m, p));
  }

  /** A tried entry has no slot in the new table. */
  lemma TriedHasNoSlot(m: Man, id: int)
    requires NewsOk(m) && id in m.info && m.info[id].inTried
    ensures Slots(m, id) == {} && m.info[id].refCount == 0
  {
    forall p | p in m.news ensures m.news[p] != id {
      var x := m.news[p];
      assert !m.info[x].inTried;
    }
    assert Slots(m, id) == {};
  }

  lemma CountMore(m: Man, limbo: set<int>, uncounted: nat)
    requires Loose(m, limbo, uncounted + 1)
    ensures Loose(m.(nNew := m.nNew + 1), limbo, uncounted)
  {
    hide AddrsOk, RandomOk, TriedOk, NewsOk;
    var s := m.(nNew := m.nNew + 1);
    AddrsFrame(m, s);
    RandomFrame(m, s);
    TriedFrame(m, s);
    NewsFrame(m, s);
    assert TriedIds(s) == TriedIds(m) && NewIds(s) == NewIds(m);
  }

  lemma ReplantKeeps(m: Man, id: int, limbo: set<int>, uncounted: nat)
    requires Loose(m, limbo, uncounted + 1) && id in m.info && !m.info[id].inTried && Slots(m, id) == {} && m.info[id].refCount == 0
    ensures CanReplant(m, id) && Loose(Replant(m, id), limbo - {id}, uncounted)
  {
    hide AddrsOk, RandomOk, TriedOk, NewsOk, TimesOk, Settled, CountsOk;
    var p := m.cfg.NewPos(m.info[id].addr, m.info[id].source);
    assert p in m.news && m.news[p] == id ==> p in Slots(m, id);
    ClearNewKeeps(m, p, limbo, uncounted + 1);
    ClearNewEffect(m, p);
    var c := ClearNew(m, p);
    assert OnlyMoved(m.info[id], c.info[id]);
    RefKeeps(c, p, id, limbo, uncounted + 1);
    CountMore(Ref(c, p, id, 1), limbo - {id}, uncounted);
  }

  /** Entry `x` survives, with the same address and statistics and still outside the tables. */
  ghost predicate Kept(m: Man, t: Man, x: int) {
    && t.cfg == m.cfg && x in m.info && x in t.info
    && t.info[x].addr == m.info[x].addr && t.info[x].inTried == m.info[x].inTried && t.info[x].refCount == m.info[x].refCount
    && t.info[x].lastSuccess == m.info[x].lastSuccess
  }

  lemma ReplantEffect(m: Man, id: int, x: int)
    requires RandomOk(m) && NewsOk(m) && CanReplant(m, id) && x in m.info && x != id && Slots(m, x) == {}
    ensures Kept(m, Replant(m, id), x) && Replant(m, id).tried == m.tried
  {
    var p := m.cfg.NewPos(m.info[id].addr, m.info[id].source);
    ClearNewEffect(m, p);
    assert p in m.news && m.news[p] == x ==> p in Slots(m, x);
    assert OnlyMoved(m.info[x], ClearNew(m, p).info[x]);
  }

  lemma MakeRoomKeeps(u: Man, id: int, p: Pos)
    requires Loose(u, {id}, 1) && id in u.info && !u.info[id].inTried && u.info[id].refCount == 0 && Slots(u, id) == {}
    ensures p in u.tried ==> u.tried[p] in u.info && CanReplant(Demote(u, p), u.tried[p])
    ensures Loose(MakeRoom(u, p), {id}, 1) && Kept(u, MakeRoom(u, p), id) && p !in MakeRoom(u, p).tried
  {
    if p in u.tried {
      var e := u.tried[p];
      DemoteKeeps(u, p, {id}, 1);
      TriedHasNoSlot(u, e);
      var d := Demote(u, p);
      assert Slots(d, e) == Slots(u, e) && Slots(d, id) == Slots(u, id);
      ReplantKeeps(d, e, {id} + {e}, 1);
      ReplantEffect(d, e, id);
      assert {id} + {e} - {e} == {id};
    }
  }

  lemma PromoteTables(m: Man, id: int, p: Pos)
    requires TriedOk(m) && NewsOk(m) && id in m.info && !m.info[id].inTried && m.info[id].refCount == 0
    requires p == m.cfg.TriedPos(m.info[id].addr) && p !in m.tried
    ensures TriedOk(Promote(m, id, p)) && NewsOk(Promote(m, id, p))
  {
    var t := Promote(m, id, p);
    assert Slots(m, id) == {};
    forall q | q in t.tried
      ensures t.tried[q] in t.info && t.info[t.tried[q]].inTried && q == t.cfg.TriedPos(t.info[t.tried[q]].addr)
    {
      if q != p {
        var x := m.tried[q];
        assert x in m.info && x == t.tried[q];
      }
    }
    assert forall x :: Slots(t, x) == Slots(m, x);
    forall q | q in t.news
      ensures t.news[q] in t.info && !t.info[t.news[q]].inTried && q.bucket < NEW_BUCKETS
      ensures q == t.cfg.NewPosIn(t.info[t.news[q]].addr, q.bucket)
    {
      var x := m.news[q];
      assert q in Slots(m, x);
      assert x in m.info && x == t.news[q] && x != id;
    }
  }

  lemma PromoteCounts(m: Man, id: int, p: Pos)
    requires CountsOk(m, 1) && id in m.info && !m.info[id].inTried
    ensures CountsOk(Promote(m, id, p), 0)
  {
    var t := Promote(m, id, p);
    assert forall x :: x in t.info <==> x in m.info;
    assert TriedIds(t) == TriedIds(m) + {id};
    assert NewIds(t) == NewIds(m) - {id};
  }

  lemma PromoteKeeps(m: Man, id: int, p: Pos)
    requires Loose(m, {id}, 1) && id in m.info && !m.info[id].inTried && m.info[id].refCount == 0 && m.info[id].lastSuccess != 0
    requires p == m.cfg.TriedPos(m.info[id].addr) && p !in m.tried
    ensures Inv(Promote(m, id, p))
  {
    hide AddrsOk, RandomOk, TriedOk, NewsOk, CountsOk, TimesOk, Settled, Promote;
    PromoteTables(m, id, p);
    PromoteCounts(m, id, p);
    PromoteRest(m, id, p);
  }

  lemma PromoteRest(m: Man, id: int, p: Pos)
    requires AddrsOk(m) && RandomOk(m) && TimesOk(m) && Settled(m, {id}) && id in m.info && m.info[id].lastSuccess != 0
    ensures var t := Promote(m, id, p); AddrsOk(t) && RandomOk(t) && TimesOk(t) && Settled(t, {})
  {
    hide AddrsOk, RandomOk;
    AddrsFrame(m, Promote(m, id, p));
    RandomFrame(m, Promote(m, id, p));
  }

  /** No assert of `MakeTried` can fire, and the entry ends up in its own tried slot. */
  lemma MakeTriedKeeps(m: Man, id: int)
    requires Inv(m) && id in m.info && !m.info[id].inTried && m.info[id].lastSuccess != 0
    ensures CanMakeTried(m, id) && id in MakeRoom(Uproot(m, id), m.cfg.TriedPos(m.info[id].addr)).info
    ensures var t := MakeTried(m, id);
            Inv(t) && t.cfg == m.cfg && id in t.info && t.info[id].inTried && t.info[id].addr == m.info[id].addr
  {
    hide AddrsOk, RandomOk, TriedOk, NewsOk, TimesOk, Settled, CountsOk;
    var p := m.cfg.TriedPos(m.info[id].addr);
    UprootKeeps(m, id);
    UprootNews(m, id);
    var u := Uproot(m, id);
    MakeRoomKeeps(u, id, p);
    PromoteKeeps(MakeRoom(u, p), id, p);
  }

  // ---------------------------------------------------------------- the other operations

  /** The entry an exact address (port included) refers to. */
  function FindExact(m: Man, a: Service): Option<int> {
    match Find(m, a)
    case None => None
    case Some(id) => if m.info[id].addr == a then Some(id) else None
  }

  function Touch(m: Man, id: int, i: Info): Man { m.(info := m.info[id := i]) }

  /** Some new bucket holds the entry at its own position. */
  predicate InSomeBucket(m: Man, id: int)
    requires id in m.info
  {
    exists b | 0 <= b < NEW_BUCKETS :: At(m.news, m.cfg.NewPosIn(m.info[id].addr, b)) == Some(id)
  }

  function Succeeded(i: Info, time: int): Info { i.(lastSuccess := time, lastTry := time, attempts := 0) }

  lemma SucceededKeeps(m: Man, id: int, time: int)
    requires Inv(m) && id in m.info && time > 0
    ensures Inv(Touch(m.(lastGood := time), id, Succeeded(m.info[id], time)))
  {
    LastGoodKeeps(m, time);
    TouchKeeps(m.(lastGood := time), id, Succeeded(m.info[id], time), {}, 0);
  }

  lemma LastGoodKeeps(m: Man, time: int)
    requires Inv(m)
    ensures Inv(m.(lastGood := time))
  {
    hide AddrsOk, RandomOk, TriedOk, NewsOk, CountsOk;
    var s := m.(lastGood := time);
    AddrsFrame(m, s);
    RandomFrame(m, s);
    TriedFrame(m, s);
    NewsFrame(m, s);
    CountsFrame(m, s, 0);
  }

  /** `Good_`: the entry is marked successful and moved to the tried table. */
  function Good(m: Man, a: Service, time: int): Man
    requires Inv(m) && time > 0
  {
    match FindExact(m, a)
    case None => m.(lastGood := time)
    case Some(id) =>
      var t := Touch(m.(lastGood := time), id, Succeeded(m.info[id], time));
      if t.info[id].inTried || !InSomeBucket(t, id) then t
      else SucceededKeeps(m, id, time); MakeTriedKeeps(t, id); MakeTried(t, id)
  }

  /** Under the invariant the "something bad happened" exit is never taken. */
  lemma NewIsInSomeBucket(m: Man, id: int)
    requires Inv(m) && id in m.info && !m.info[id].inTried
    ensures InSomeBucket(m, id)
  {
    assert Slots(m, id) != {};
    var p :| p in Slots(m, id);
    assert At(m.news, m.cfg.NewPosIn(m.info[id].addr, p.bucket)) == Some(id);
  }

  lemma TriedAt(m: Man, id: int)
    requires Inv(m) && id in m.info && m.info[id].inTried
    ensures At(m.tried, m.cfg.TriedPos(m.info[id].addr)) == Some(id)
  {}

  /** `Good_` keeps the invariant; an exactly known address is in the tried table afterwards. */
  lemma GoodKeeps(m: Man, a: Service, time: int)
    requires Inv(m) && time > 0
    ensures Inv(Good(m, a, time))
    ensures FindExact(m, a).Some? ==>
              var id := FindExact(m, a).value;
              && id in Good(m, a, time).info && Good(m, a, time).info[id].inTried
              && At(Good(m, a, time).tried, m.cfg.TriedPos(a)) == Some(id)
  {
    hide MakeTried, InSomeBucket, Loose;
    match FindExact(m, a)
    case None => LastGoodKeeps(m, time);
    case Some(id) =>
      SucceededKeeps(m, id, time);
      var t := Touch(m.(lastGood := time), id, Succeeded(m.info[id], time));
      if !t.info[id].inTried {
        NewIsInSomeBucket(t, id);
        MakeTriedKeeps(t, id);
      }
      TriedAt(Good(m, a, time), id);
  }

  function Attempt(m: Man, a: Service, countFailure: bool, time: int): Man {
    match FindExact(m, a)
    case None => m
    case Some(id) =>
      var i := m.info[id].(lastTry := time);
      Touch(m, id, if countFailure && i.lastCount < m.lastGood then i.(lastCount := time, attempts := i.attempts + 1) else i)
  }

  function Connected(m: Man, a: Service, time: int): Man {
    match FindExact(m, a)
    case None => m
    case Some(id) => if time - m.info[id].time > 20 * 60 then Touch(m, id, m.info[id].(time := time)) else m
  }

  function SetServices(m: Man, a: Service, services: bv64): Man {
    match FindExact(m, a)
    case None => m
    case Some(id) => Touch(m, id, m.info[id].(services := services))
  }

  // ---------------------------------------------------------------- GetAddr_

  function GetAddrCount(m: Man): nat {
    var n := GETADDR_MAX_PCT * |m.random| / 100;
    if n > GETADDR_MAX then GETADDR_MAX else n
  }

  /** Shuffle `random` from position `n` on, collecting entries that are not terrible; `rnd` draws numbers. */
  function Shuffle(m: Man, n: nat, out: seq<int>, limit: nat, now: int, rnd: nat -> nat): (Man, seq<int>)
    requires RandomOk(m) && n <= |m.random|
    decreases |m.random| - n
  {
    if n == |m.random| || |out| >= limit then (m, out)
    else
      var j := Draw(rnd, n, |m.random|);
      SwapRandomOk(m, n, j);
      SwapEffect(m, n, j);
      Shuffle(SwapRandom(m, n, j), n + 1, ShuffleStep(SwapRandom(m, n, j), n, out, now), limit, now, rnd)
  }

  /** A position from `n` on, below `len`. */
  function Draw(rnd: nat -> nat, n: nat, len: nat): (j: nat)
    requires n < len
    ensures n <= j < len
  {
    rnd(n) % (len - n) + n
  }

  function ShuffleStep(s: Man, n: nat, out: seq<int>, now: int): (ids: seq<int>)
    requires RandomOk(s) && n < |s.random|
    ensures |ids| <= |out| + 1
  {
    if IsTerrible(s.info[s.random[n]], now) then out else out + [s.random[n]]
  }

  function GetAddr(m: Man, now: int, rnd: nat -> nat): (Man, seq<int>)
    requires RandomOk(m)
  {
    Shuffle(m, 0, [], GetAddrCount(m), now, rnd)
  }

  /** Distinct known entries, none terrible, all from the shuffled part. */
  ghost predicate Picked(m: Man, n: nat, out: seq<int>, now: int) {
    && (forall i :: 0 <= i < |out| ==> out[i] in m.info && m.info[out[i]].randomPos < n && !IsTerrible(m.info[out[i]], now))
    && (forall i, j :: 0 <= i < j < |out| ==> out[i] != out[j])
  }

  /** Distinct known entries, none terrible. */
  ghost predicate Chosen(m: Man, ids: seq<int>, now: int) {
    && (forall i :: 0 <= i < |ids| ==> ids[i] in m.info && !IsTerrible(m.info[ids[i]], now))
    && (forall i, j :: 0 <= i < j < |ids| ==> ids[i] != ids[j])
  }

  lemma ShuffleReady(m: Man, n: nat, out: seq<int>, now: int)
    requires Inv(m) && Picked(m, n, out, now)
    ensures RandomOk(m) && Chosen(m, out, now)
  {}

  lemma {:induction false} ShuffleKeeps(m: Man, n: nat, out: seq<int>, limit: nat, now: int, rnd: nat -> nat)
    requires Inv(m) && n <= |m.random| && Picked(m, n, out, now) && |out| <= limit
    ensures var (t, ids) := Shuffle(m, n, out, limit, now, rnd);
            Inv(t) && Chosen(t, ids, now) && |ids| <= limit && |t.random| == |m.random|
    decreases |m.random| - n
  {
    hide Loose, Picked, Chosen, ShuffleStep, Draw, RandomOk, SwapRandom, CanSwap;
    ShuffleReady(m, n, out, now);
    if n != |m.random| && |out| < limit {
      var j := Draw(rnd, n, |m.random|);
      SwapKeeps(m, n, j, {}, 0);
      PickedSwap(m, n, j, out, now);
      ShuffleKeeps(SwapRandom(m, n, j), n + 1, ShuffleStep(SwapRandom(m, n, j), n, out, now), limit, now, rnd);
    }
  }

  lemma PickedSwap(m: Man, n: nat, j: nat, out: seq<int>, now: int)
    requires RandomOk(m) && n <= j < |m.random| && Picked(m, n, out, now)
    ensures CanSwap(m, n, j)
    ensures var s := SwapRandom(m, n, j);
            RandomOk(s) && |s.random| == |m.random| && Picked(s, n + 1, ShuffleStep(s, n, out, now), now)
  {
    SwapRandomOk(m, n, j);
    var s := SwapRandom(m, n, j);
    forall i | 0 <= i < |out| ensures out[i] in s.info && s.info[out[i]] == m.info[out[i]] {
      PickedStays(m, n, j, out[i], now);
    }
    PickedMore(s, n, out, now);
  }

  lemma PickedMore(s: Man, n: nat, out: seq<int>, now: int)
    requires RandomOk(s) && n < |s.random| && Picked(s, n, out, now)
    ensures Picked(s, n + 1, ShuffleStep(s, n, out, now), now)
  {
    hide IsTerrible;
    assert s.info[s.random[n]].randomPos == n;
  }

  lemma PickedStays(m: Man, n: nat, j: nat, x: int, now: int)
    requires RandomOk(m) && n <= j < |m.random| && CanSwap(m, n, j)
    requires x in m.info && m.info[x].randomPos < n && !IsTerrible(m.info[x], now)
    ensures var s := SwapRandom(m, n, j); x in s.info && s.info[x] == m.info[x]
  {
    assert x != m.random[n] && x != m.random[j];
  }

  // ---------------------------------------------------------------- runs

  /** The public operations; times come from the clock, draws from the random source. */
  datatype Event =
    | AddEvent(a: Address, source: int, penalty: int, now: int, draw: nat, routable: bool)
    | GoodEvent(s: Service, time: int)
    | AttemptEvent(s: Service, countFailure: bool, time: int)
    | ConnectedEvent(s: Service, time: int)
    | ServicesEvent(s: Service, services: bv64)
    | GetAddrEvent(now: int, rnd: nat -> nat)

  /** Clocks do not run below zero, and a success has a time. */
  predicate Sane(e: Event) {
    (e.GoodEvent? ==> e.time > 0) && (e.AttemptEvent? ==> e.time >= 0)
  }

  function Step(m: Man, e: Event): Man
    requires Inv(m) && Sane(e)
  {
    match e
    case AddEvent(a, source, penalty, now, draw, routable) => Add(m, a, source, penalty, now, draw, routable).0
    case GoodEvent(s, time) => Good(m, s, time)
    case AttemptEvent(s, countFailure, time) => Attempt(m, s, countFailure, time)
    case ConnectedEvent(s, time) => Connected(m, s, time)
    case ServicesEvent(s, services) => SetServices(m, s, services)
    case GetAddrEvent(now, rnd) => GetAddr(m, now, rnd).0
  }

  lemma TouchesKeep(m: Man, e: Event)
    requires Inv(m) && Sane(e) && (e.AttemptEvent? || e.ConnectedEvent? || e.ServicesEvent?)
    ensures Inv(Step(m, e))
  {
    match FindExact(m, e.s)
    case None =>
    case Some(id) =>
      var i := if e.AttemptEvent? then Attempt(m, e.s, e.countFailure, e.time).info[id]
               else if e.ConnectedEvent? then m.info[id].(time := e.time)
               else m.info[id].(services := e.services);
      TouchKeeps(m, id, i, {}, 0);
  }

  lemma StepKeeps(m: Man, e: Event)
    requires Inv(m) && Sane(e)
    ensures Inv(Step(m, e))
  {
    hide Loose, Add, Good, Shuffle;
    match e
    case AddEvent(a, source, penalty, now, draw, routable) => AddKeeps(m, a, source, penalty, now, draw, routable);
    case GoodEvent(s, time) => GoodKeeps(m, s, time);
    case GetAddrEvent(now, rnd) => GetAddrKeeps(m, now, rnd);
    case _ => TouchesKeep(m, e);
  }

  /** `GetAddr_` returns distinct known entries that are not terrible, within both limits, and only permutes. */
  lemma GetAddrKeeps(m: Man, now: int, rnd: nat -> nat)
    requires Inv(m)
    ensures RandomOk(m)
    ensures var (t, ids) := GetAddr(m, now, rnd);
            && Inv(t) && Chosen(t, ids, now) && |t.random| == |m.random|
            && |ids| <= GETADDR_MAX && 100 * |ids| <= GETADDR_MAX_PCT * |m.random|
  {
    hide Loose, Shuffle, IsTerrible;
    ShuffleReady(m, 0, [], now);
    ShuffleKeeps(m, 0, [], GetAddrCount(m), now, rnd);
  }

  ghost function Run(m: Man, events: seq<Event>): (t: Man)
    requires Inv(m) && forall i :: 0 <= i < |events| ==> Sane(events[i])
    ensures Inv(t)
    decreases |events|
  {
    if events == [] then m else StepKeeps(m, events[0]); Run(Step(m, events[0]), events[1..])
  }

  lemma EmptyInv(cfg: Config)
    ensures Inv(Empty(cfg))
  {
    assert TriedIds(Empty(cfg)) == {} && NewIds(Empty(cfg)) == {};
  }

  lemma {:induction false} DistinctSize(xs: seq<int>)
    requires forall i, j :: 0 <= i < j < |xs| ==> xs[i] != xs[j]
    ensures |set x | x in xs| == |xs|
  {
    if xs != [] {
      var n := |xs| - 1;
      DistinctSize(xs[..n]);
      assert (set x | x in xs) == (set x | x in xs[..n]) + {xs[n]};
    }
  }

  lemma RandomIsIds(m: Man)
    requires RandomOk(m)
    ensures |m.random| == |m.info|
  {
    forall i, j | 0 <= i < j < |m.random| ensures m.random[i] != m.random[j] {
      assert m.info[m.random[i]].randomPos == i && m.info[m.random[j]].randomPos == j;
    }
    DistinctSize(m.random);
    assert (set x | x in m.random) == m.info.Keys by {
      forall id | id in m.info ensures id in m.random {
        assert m.random[m.info[id].randomPos] == id;
      }
    }
  }

  lemma CountsAddUp(m: Man)
    requires CountsOk(m, 0)
    ensures |m.info| == m.nTried + m.nNew
  {
    assert TriedIds(m) + NewIds(m) == m.info.Keys;
  }

  /** `random` is a permutation of the ids, so the counters add up to its length. */
  lemma SizesAgree(m: Man)
    requires Inv(m)
    ensures |m.random| == |m.info| == m.nTried + m.nNew
  {
    hide AddrsOk, RandomOk, TriedOk, NewsOk, CountsOk, TimesOk, Settled;
    RandomIsIds(m);
    CountsAddUp(m);
  }

  /** Main theorem: every run from an empty manager keeps everything `Check_` checks, with addresses looked up as `Find`
    * does; `AddrManCheck.dfy` tells when the full lookup of `Check_` agrees.
    */
  lemma RunPassesCheck(cfg: Config, events: seq<Event>)
    requires forall i :: 0 <= i < |events| ==> Sane(events[i])
    ensures Inv(Empty(cfg))
    ensures var m := Run(Empty(cfg), events);
            && Inv(m) && |m.random| == m.nTried + m.nNew
            && (forall id :: id in m.info ==>
                  && (m.info[id].inTried <==> Slots(m, id) == {})
                  && m.info[id].refCount == |Slots(m, id)| <= NEW_BUCKETS_PER_ADDRESS
                  && Find(m, m.info[id].addr) == Some(id))
  {
    EmptyInv(cfg);
    var m := Run(Empty(cfg), events);
    SizesAgree(m);
    forall id | id in m.info ensures m.info[id].inTried <==> Slots(m, id) == {} {
      if m.info[id].inTried {
        TriedHasNoSlot(m, id);
      }
    }
  }

  // ---------------------------------------------------------------- how much GetAddr_ answers

  /** Nothing good that has been shuffled so far is left out. */
  ghost predicate Covered(m: Man, n: nat, out: seq<int>, now: int) {
    forall id :: id in m.info && m.info[id].randomPos < n && !IsTerrible(m.info[id], now) ==> id in out
  }

  /** The same manager but for the random order and the entries' places in it. */
  ghost predicate SameButOrder(m: Man, t: Man) {
    && t == m.(info := t.info, random := t.random) && SameIds(m, t)
    && forall id :: id in m.info ==> t.info[id].(randomPos := 0) == m.info[id].(randomPos := 0)
  }

  lemma SameTerrible(m: Man, t: Man, id: int, now: int)
    requires SameButOrder(m, t) && id in m.info
    ensures id in t.info && IsTerrible(t.info[id], now) == IsTerrible(m.info[id], now)
  {
    var i := m.info[id].(randomPos := 0);
    assert t.info[id].(randomPos := 0) == i;
  }

  lemma SwapOrder(m: Man, n: nat, j: nat)
    requires RandomOk(m) && CanSwap(m, n, j)
    ensures SameButOrder(m, SwapRandom(m, n, j))
  {
    hide SwapRandom, CanSwap, RandomOk;
    SwapEffect(m, n, j);
    var s := SwapRandom(m, n, j);
    forall id | id in m.info ensures s.info[id].(randomPos := 0) == m.info[id].(randomPos := 0) {
      assert OnlyMoved(m.info[id], s.info[id]);
    }
  }

  lemma CoveredSwap(m: Man, n: nat, j: nat, out: seq<int>, now: int)
    requires RandomOk(m) && n <= j < |m.random| && CanSwap(m, n, j) && Covered(m, n, out, now)
    requires RandomOk(SwapRandom(m, n, j)) && |SwapRandom(m, n, j).random| == |m.random|
    ensures var s := SwapRandom(m, n, j); Covered(s, n + 1, ShuffleStep(s, n, out, now), now)
  {
    hide IsTerrible;
    var s := SwapRandom(m, n, j);
    forall id | id in s.info && s.info[id].randomPos < n + 1 && !IsTerrible(s.info[id], now)
      ensures id in ShuffleStep(s, n, out, now)
    {
      if s.info[id].randomPos == n {
        assert s.random[n] == id;
      } else {
        assert id != m.random[n] && id != m.random[j];
        assert s.info[id] == m.info[id];
      }
    }
  }

  lemma {:induction false} ShuffleCovers(m: Man, n: nat, out: seq<int>, limit: nat, now: int, rnd: nat -> nat)
    requires Inv(m) && n <= |m.random| && Picked(m, n, out, now) && |out| <= limit && Covered(m, n, out, now) && RandomOk(m)
    ensures var (t, ids) := Shuffle(m, n, out, limit, now, rnd);
            SameButOrder(m, t) && (|ids| == limit || forall id :: id in t.info && !IsTerrible(t.info[id], now) ==> id in ids)
    decreases |m.random| - n
  {
    hide Loose, Picked, Covered, ShuffleStep, Draw, RandomOk, SwapRandom, CanSwap, IsTerrible;
    if n == |m.random| {
      CoveredAll(m, out, now);
    } else if |out| < limit {
      var j := Draw(rnd, n, |m.random|);
      SwapKeeps(m, n, j, {}, 0);
      PickedSwap(m, n, j, out, now);
      SwapOrder(m, n, j);
      CoveredSwap(m, n, j, out, now);
      ShuffleCovers(SwapRandom(m, n, j), n + 1, ShuffleStep(SwapRandom(m, n, j), n, out, now), limit, now, rnd);
    }
  }

  lemma CoveredAll(m: Man, out: seq<int>, now: int)
    requires RandomOk(m) && Covered(m, |m.random|, out, now)
    ensures forall id :: id in m.info && !IsTerrible(m.info[id], now) ==> id in out
  {}

  /** `GetAddr_` returns min(23% of the entries, 2500) of them, or else every entry that is not terrible. */
  lemma GetAddrAnswers(m: Man, now: int, rnd: nat -> nat)
    requires Inv(m)
    ensures RandomOk(m)
    ensures var (t, ids) := GetAddr(m, now, rnd);
            && SameButOrder(m, t) && (forall i :: 0 <= i < |ids| ==> ids[i] in m.info && !IsTerrible(m.info[ids[i]], now))
            && (|ids| == (if 23 * |m.random| / 100 > 2500 then 2500 else 23 * |m.random| / 100)
                || forall id :: id in m.info && !IsTerrible(m.info[id], now) ==> id in ids)
  {
    hide Loose, Shuffle, IsTerrible, SameButOrder, RandomOk;
    GetAddrKeeps(m, now, rnd);
    ShuffleReady(m, 0, [], now);
    NothingShuffled(m, now);
    ShuffleCovers(m, 0, [], GetAddrCount(m), now, rnd);
    var (t, ids) := GetAddr(m, now, rnd);
    forall id | id in m.info ensures id in t.info && IsTerrible(t.info[id], now) == IsTerrible(m.info[id], now) {
      SameTerrible(m, t, id, now);
    }
    forall i | 0 <= i < |ids| ensures ids[i] in m.info { SameIdsOf(m, t, ids[i]); }
  }

  lemma SameIdsOf(m: Man, t: Man, id: int)
    requires SameButOrder(m, t) && id in t.info
    ensures id in m.info
  {}

  lemma NothingShuffled(m: Man, now: int)
    requires RandomOk(m)
    ensures Covered(m, 0, [], now)
  {}

  // ---------------------------------------------------------------- what Add_ does to the address book

  /** The entry that inserting `id` overwrites for good, if any. */
  function Overwritten(m: Man, id: int, source: int): set<int>
    requires id in m.info
  {
    Doomed(m, m.cfg.NewPos(m.info[id].addr, source))
  }

  lemma InsertEffect(m: Man, id: int, source: int, now: int)
    requires Loose(m, {id}, 0) && id in m.info && !m.info[id].inTried && m.info[id].refCount == 0 && Slots(m, id) == {}
    ensures var p := m.cfg.NewPos(m.info[id].addr, source);
            var t := Insert(m, id, source, now);
            var room := p !in m.news || (m.news[p] in m.info && Overwrites(m, p, id, now));
            && (id in t.info <==> room)
            && (forall x :: x in m.info && x != id ==> (x in t.info <==> !(room && x in Overwritten(m, id, source))))
  {
    hide AddrsOk, TriedOk, TimesOk, Settled, CountsOk, IsTerrible;
    var p := m.cfg.NewPos(m.info[id].addr, source);
    assert At(m.news, p) == Some(id) ==> p in Slots(m, id);
    if p in m.news {
      var x := m.news[p];
      assert x in m.info;
    }
    if p !in m.news || Overwrites(m, p, id, now) {
      ClearNewKeeps(m, p, {id}, 0);
      ClearNewEffect(m, p);
    } else {
      DeleteAllowed(m, id);
      DeleteEffect(m, id);
    }
  }

  /** `Add_` of an unknown address: it stays exactly when its slot is free or may be overwritten,
      and the only entry ever lost is the terrible one whose last slot this was. */
  lemma AddUnknownEffect(m: Man, a: Address, source: int, penalty: int, now: int)
    requires Inv(m) && m.cfg.Key(a.service) !in m.addrs
    ensures var p := m.cfg.NewPos(a.service, source);
            var t := AddUnknown(m, a, source, penalty, now);
            var room := p !in m.news || (m.news[p] in m.info && (IsTerrible(m.info[m.news[p]], now) || m.info[m.news[p]].refCount > 1));
            && (m.idCount in t.info <==> room)
            && (forall x :: x in m.info ==> (x in t.info <==> !(room && x in Doomed(m, p))))
  {
    hide AddrsOk, RandomOk, TriedOk, Settled, CountsOk, Insert, IsTerrible;
    var c := Created(m, a, source, penalty);
    CreateKeeps(m, a.(time := Max0(a.time - penalty)), source);
    CreateNews(m, a.(time := Max0(a.time - penalty)), source);
    assert Slots(c, m.idCount) == Slots(Create(m, a.(time := Max0(a.time - penalty)), source), m.idCount);
    InsertEffect(c, m.idCount, source, now);
    var p := m.cfg.NewPos(a.service, source);
    if p in m.news {
      var x := m.news[p];
      assert x in m.info && c.info[x] == m.info[x];
    }
  }
}
