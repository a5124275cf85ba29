/** The stochastic address manager as a value: an entry table with five redundant indexes over it.
  * `AddrManager.dfy` holds the object; `AddrManSerial.dfy` its stream format.
  */
module AddrMan {
  import opened Prelude
  import Arith

  const NEW_BUCKETS := 1024
  const TRIED_BUCKETS := 256
  const BUCKET_SIZE := 64
  const NEW_BUCKETS_PER_ADDRESS := 8
  const HORIZON_DAYS := 30
  const RETRIES := 3
  const MAX_FAILURES := 10
  const MIN_FAIL_DAYS := 7
  const GETADDR_MAX_PCT := 23
  const GETADDR_MAX := 2500
  const DAY := 24 * 60 * 60

  datatype Service = Service(ip: int, port: nat)

  datatype Address = Address(service: Service, time: int, services: bv64)

  datatype Info = Info(
    addr: Service, time: int, services: bv64, source: int,
    lastTry: int, lastCount: int, lastSuccess: int, attempts: int,
    refCount: int, inTried: bool, randomPos: int)

  datatype Pos = Pos(bucket: nat, slot: nat)

  /** The keyed hashes behind the bucket choices, and whether ports tell addresses apart. */
  datatype Config = Config(
    byPort: bool, triedHash: Service -> nat, newHash: (Service, int) -> nat, slotHash: (Service, bool, nat) -> nat)
  {
    function Key(a: Service): Service { if byPort then a else a.(port := 0) }

    function TriedPos(a: Service): Pos {
      var b := triedHash(a) % TRIED_BUCKETS;
      Pos(b, slotHash(a, false, b) % BUCKET_SIZE)
    }

    function NewPosIn(a: Service, bucket: nat): Pos { Pos(bucket, slotHash(a, true, bucket) % BUCKET_SIZE) }

    function NewPos(a: Service, source: int): Pos { NewPosIn(a, newHash(a, source) % NEW_BUCKETS) }
  }

  /** Only occupied slots of the two tables are listed. */
  datatype Man = Man(
    cfg: Config, idCount: nat, info: map<int, Info>, addrs: map<Service, int>, random: seq<int>,
    nTried: int, tried: map<Pos, int>, nNew: int, news: map<Pos, int>, lastGood: int)

  function Empty(cfg: Config): Man {
    Man(cfg, 0, map[], map[], [], 0, map[], 0, map[], 1)
  }

  predicate IsTerrible(i: Info, now: int) {
    if i.lastTry != 0 && i.lastTry >= now - 60 then false
    else if i.time > now + 10 * 60 then true
    else if i.time == 0 || now - i.time > HORIZON_DAYS * DAY then true
    else if i.lastSuccess == 0 && i.attempts >= RETRIES then true
    else now - i.lastSuccess > MIN_FAIL_DAYS * DAY && i.attempts >= MAX_FAILURES
  }

  // ---------------------------------------------------------------- primitive updates

  function Find(m: Man, a: Service): Option<int> {
    var k := m.cfg.Key(a);
    if k in m.addrs && m.addrs[k] in m.info then Some(m.addrs[k]) else None
  }

  function Create(m: Man, a: Address, source: int): Man {
    var id := m.idCount;
    m.(idCount := id + 1,
       info := m.info[id := Info(a.service, a.time, a.services, source, 0, 0, 0, 0, 0, false, |m.random|)],
       addrs := m.addrs[m.cfg.Key(a.service) := id],
       random := m.random + [id])
  }

  predicate CanSwap(m: Man, i: nat, j: nat) {
    i < |m.random| && j < |m.random| && m.random[i] in m.info && m.random[j] in m.info
  }

  function SwapRandom(m: Man, i: nat, j: nat): Man
    requires i == j || CanSwap(m, i, j)
  {
    if i == j then m
    else
      var x, y := m.random[i], m.random[j];
      var info := m.info[x := m.info[x].(randomPos := j)];
      m.(info := info[y := info[y].(randomPos := i)], random := m.random[i := y][j := x])
  }

  /** The asserts at the head of `Delete`. */
  predicate CanDelete(m: Man, id: int) {
    && id in m.info && !m.info[id].inTried && m.info[id].refCount == 0
    && 0 <= m.info[id].randomPos && |m.random| > 0
    && (m.info[id].randomPos == |m.random| - 1 || CanSwap(m, m.info[id].randomPos, |m.random| - 1))
  }

  /** Removing an entry that stands at the end of `random`. */
  function Drop(m: Man, id: int): Man
    requires id in m.info && m.random != []
  {
    m.(random := m.random[..|m.random| - 1], addrs := m.addrs - {m.cfg.Key(m.info[id].addr)},
       info := m.info - {id}, nNew := m.nNew - 1)
  }

  function Delete(m: Man, id: int): Man
    requires CanDelete(m, id)
  {
    Drop(SwapRandom(m, m.info[id].randomPos, |m.random| - 1), id)
  }

  /** One reference less for the entry in new slot `p`. */
  function Unref(m: Man, p: Pos): Man
    requires p in m.news && m.news[p] in m.info
  {
    var id := m.news[p];
    m.(info := m.info[id := m.info[id].(refCount := m.info[id].refCount - 1)], news := m.news - {p})
  }

  predicate CanClear(m: Man, p: Pos) {
    p in m.news ==>
      && m.news[p] in m.info
      && (m.info[m.news[p]].refCount == 1 ==> CanDelete(Unref(m, p), m.news[p]))
  }

  function ClearNew(m: Man, p: Pos): Man
    requires CanClear(m, p)
  {
    if p !in m.news then m
    else if m.info[m.news[p]].refCount == 1 then Delete(Unref(m, p), m.news[p])
    else Unref(m, p)
  }

  /** Put `id` into new slot `p`, with `n` references in all. */
  function Ref(m: Man, p: Pos, id: int, n: int): Man
    requires id in m.info
  {
    m.(info := m.info[id := m.info[id].(refCount := n)], news := m.news[p := id])
  }

  // ---------------------------------------------------------------- Add_

  function Max0(x: int): int { if x < 0 then 0 else x }

  /** What a repeated announcement changes in a known entry. */
  function Refresh(i: Info, a: Address, penalty: int, now: int): Info {
    var interval := if now - a.time < DAY then 60 * 60 else DAY;
    var time := if a.time != 0 && (i.time == 0 || i.time < a.time - interval - penalty) then Max0(a.time - penalty) else i.time;
    i.(time := time, services := i.services | a.services)
  }

  /** Whether a known entry may gain one more reference; `draw` is the random number. */
  predicate MayRefer(i: Info, a: Address, draw: nat) {
    && a.time != 0 && (i.time == 0 || a.time > i.time)
    && !i.inTried && i.refCount != NEW_BUCKETS_PER_ADDRESS
    && (i.refCount > 0 ==> draw % Arith.Pow2(i.refCount) == 0)
  }

  /** The last part of `Add_`: find room in the new table for entry `id`. */
  predicate Overwrites(m: Man, p: Pos, id: int, now: int)
    requires p in m.news && m.news[p] in m.info && id in m.info
  {
    IsTerrible(m.info[m.news[p]], now) || (m.info[m.news[p]].refCount > 1 && m.info[id].refCount == 0)
  }

  function Insert(m: Man, id: int, source: int, now: int): Man
    requires Loose(m, {id}, 0) && id in m.info && !m.info[id].inTried
  {
    var p := m.cfg.NewPos(m.info[id].addr, source);
    if At(m.news, p) == Some(id) then m
    else if p !in m.news || Overwrites(m, p, id, now) then
      ClearNewKeeps(m, p, {id}, 0);
      ClearNewEffect(m, p);
      var c := ClearNew(m, p);
      Ref(c, p, id, c.info[id].refCount + 1)
    else if m.info[id].refCount == 0 then
      DeleteAllowed(m, id);
      Delete(m, id)
    else m
  }

  function AddKnown(m: Man, id: int, a: Address, source: int, penalty: int, now: int, draw: nat): Man
    requires Inv(m) && id in m.info
  {
    var i := Refresh(m.info[id], a, penalty, now);
    TouchKeeps(m, id, i, {}, 0);
    var t := m.(info := m.info[id := i]);
    if MayRefer(i, a, draw) then LooseWeaken(t, id); Insert(t, id, source, now) else t
  }

  /** A new entry, not yet in any table. */
  function Created(m: Man, a: Address, source: int, penalty: int): Man {
    Create(m, a.(time := Max0(a.time - penalty)), source).(nNew := m.nNew + 1)
  }

  function AddUnknown(m: Man, a: Address, source: int, penalty: int, now: int): Man
    requires Inv(m) && m.cfg.Key(a.service) !in m.addrs
  {
    CreatedKeeps(m, a, source, penalty);
    Insert(Created(m, a, source, penalty), m.idCount, source, now)
  }

  /** `Add_`: the new state, and whether the address was unknown. */
  function Add(m: Man, a: Address, source: int, penalty: int, now: int, draw: nat, routable: bool): (Man, bool)
    requires Inv(m)
  {
    var penalty := if a.service.ip == source then 0 else penalty;
    FindIsLookup(m, a.service);
    if !routable then (m, false)
    else match Find(m, a.service)
         case Some(id) => (AddKnown(m, id, a, source, penalty, now, draw), false)
         case None => (AddUnknown(m, a, source, penalty, now), true)
  }

  // ---------------------------------------------------------------- the invariant

  ghost predicate AddrsOk(m: Man) {
    && (forall id :: id in m.info ==> m.cfg.Key(m.info[id].addr) in m.addrs && m.addrs[m.cfg.Key(m.info[id].addr)] == id)
    && (forall k :: k in m.addrs ==> m.addrs[k] in m.info && m.cfg.Key(m.info[m.addrs[k]].addr) == k)
  }

  ghost predicate RandomOk(m: Man) {
    && (forall id :: id in m.info ==> 0 <= m.info[id].randomPos < |m.random| && m.random[m.info[id].randomPos] == id)
    && (forall j :: 0 <= j < |m.random| ==> m.random[j] in m.info && m.info[m.random[j]].randomPos == j)
  }

  ghost predicate TriedOk(m: Man) {
    && (forall p :: p in m.tried ==> m.tried[p] in m.info && m.info[m.tried[p]].inTried && p == m.cfg.TriedPos(m.info[m.tried[p]].addr))
    && (forall id :: id in m.info && m.info[id].inTried ==>
          m.cfg.TriedPos(m.info[id].addr) in m.tried && m.tried[m.cfg.TriedPos(m.info[id].addr)] == id)
  }

  /** The new slots that hold `id`. */
  function Slots(m: Man, id: int): set<Pos> {
    set p | p in m.news && m.news[p] == id
  }

  ghost predicate NewsOk(m: Man) {
    && (forall p :: p in m.news ==>
          m.news[p] in m.info && !m.info[m.news[p]].inTried && p.bucket < NEW_BUCKETS && p == m.cfg.NewPosIn(m.info[m.news[p]].addr, p.bucket))
    && (forall id :: id in m.info ==> m.info[id].refCount == |Slots(m, id)| && m.info[id].refCount <= NEW_BUCKETS_PER_ADDRESS)
  }

  /** Entries are referenced or tried, except for those in `limbo` while an operation is under way. */
  ghost predicate Settled(m: Man, limbo: set<int>) {
    forall id :: id in m.info && id !in limbo ==> m.info[id].inTried || m.info[id].refCount > 0
  }

  ghost predicate TimesOk(m: Man) {
    forall id :: id in m.info ==>
      && 0 <= id < m.idCount && m.info[id].lastTry >= 0 && m.info[id].lastSuccess >= 0
      && (m.info[id].inTried ==> m.info[id].lastSuccess != 0)
  }

  function TriedIds(m: Man): set<int> { set id | id in m.info && m.info[id].inTried }
  function NewIds(m: Man): set<int> { set id | id in m.info && !m.info[id].inTried }

  /** `uncounted` entries have left one counter and not yet entered the other. */
  ghost predicate CountsOk(m: Man, uncounted: nat) {
    m.nTried == |TriedIds(m)| && m.nNew + uncounted == |NewIds(m)|
  }

  ghost predicate Loose(m: Man, limbo: set<int>, uncounted: nat) {
    AddrsOk(m) && RandomOk(m) && TriedOk(m) && NewsOk(m) && TimesOk(m) && Settled(m, limbo) && CountsOk(m, uncounted)
  }

  /** What `Check_` checks, with addresses looked up as `Find` does. */
  ghost predicate Inv(m: Man) { Loose(m, {}, 0) }

  // ---------------------------------------------------------------- frames: each part reads few fields

  ghost predicate SameIds(m: Man, s: Man) { m.cfg == s.cfg && forall id :: id in m.info <==> id in s.info }

  lemma AddrsFrame(m: Man, s: Man)
    requires AddrsOk(m) && SameIds(m, s) && s.addrs == m.addrs
    requires forall id :: id in m.info ==> s.info[id].addr == m.info[id].addr
    ensures AddrsOk(s)
  {
    forall k | k in s.addrs ensures s.addrs[k] in s.info && s.cfg.Key(s.info[s.addrs[k]].addr) == k {
      var id := m.addrs[k];
      assert id in m.info;
    }
  }

  lemma RandomFrame(m: Man, s: Man)
    requires RandomOk(m) && SameIds(m, s) && s.random == m.random
    requires forall id :: id in m.info ==> s.info[id].randomPos == m.info[id].randomPos
    ensures RandomOk(s)
  {
    forall j | 0 <= j < |s.random| ensures s.random[j] in s.info && s.info[s.random[j]].randomPos == j {
      var id := m.random[j];
      assert id in m.info;
    }
  }

  lemma TriedFrame(m: Man, s: Man)
    requires TriedOk(m) && SameIds(m, s) && s.tried == m.tried
    requires forall id :: id in m.info ==> s.info[id].addr == m.info[id].addr && s.info[id].inTried == m.info[id].inTried
    ensures TriedOk(s)
  {
    forall p | p in s.tried
      ensures s.tried[p] in s.info && s.info[s.tried[p]].inTried && p == s.cfg.TriedPos(s.info[s.tried[p]].addr)
    {
      var id := m.tried[p];
      assert id in m.info;
    }
  }

  lemma NewsFrame(m: Man, s: Man)
    requires NewsOk(m) && SameIds(m, s) && s.news == m.news
    requires forall id :: id in m.info ==>
      s.info[id].addr == m.info[id].addr && s.info[id].inTried == m.info[id].inTried && s.info[id].refCount == m.info[id].refCount
    ensures NewsOk(s)
  {
    forall p | p in s.news
      ensures s.news[p] in s.info && !s.info[s.news[p]].inTried && p.bucket < NEW_BUCKETS
      ensures p == s.cfg.NewPosIn(s.info[s.news[p]].addr, p.bucket)
    {
      var id := m.news[p];
      assert id in m.info;
    }
    forall id | id in s.info ensures s.info[id].refCount == |Slots(s, id)| && s.info[id].refCount <= NEW_BUCKETS_PER_ADDRESS {
      assert id in m.info && Slots(s, id) == Slots(m, id);
    }
  }

  lemma CountsFrame(m: Man, s: Man, uncounted: nat)
    requires CountsOk(m, uncounted) && SameIds(m, s) && s.nTried == m.nTried && s.nNew == m.nNew
    requires forall id :: id in m.info ==> s.info[id].inTried == m.info[id].inTried
    ensures CountsOk(s, uncounted)
  {
    forall id ensures (id in TriedIds(s) <==> id in TriedIds(m)) && (id in NewIds(s) <==> id in NewIds(m)) {
      assert id in m.info <==> id in s.info;
    }
    assert TriedIds(s) == TriedIds(m) && NewIds(s) == NewIds(m);
  }

  /** Everything but the new table and the entry statistics. */
  lemma FrameMost(m: Man, s: Man, uncounted: nat)
    requires AddrsOk(m) && RandomOk(m) && TriedOk(m) && CountsOk(m, uncounted) && SameIds(m, s)
    requires s.addrs == m.addrs && s.random == m.random && s.tried == m.tried && s.nTried == m.nTried && s.nNew == m.nNew
    requires forall id :: id in m.info ==>
      s.info[id].addr == m.info[id].addr && s.info[id].randomPos == m.info[id].randomPos && s.info[id].inTried == m.info[id].inTried
    ensures AddrsOk(s) && RandomOk(s) && TriedOk(s) && CountsOk(s, uncounted)
  {
    hide AddrsOk, RandomOk, TriedOk, CountsOk;
    AddrsFrame(m, s);
    RandomFrame(m, s);
    TriedFrame(m, s);
    CountsFrame(m, s, uncounted);
  }

  /** Fields no index depends on. */
  ghost predicate SameShape(i: Info, j: Info) {
    i.addr == j.addr && i.refCount == j.refCount && i.inTried == j.inTried && i.randomPos == j.randomPos
  }

  /** Updating statistics of one entry, as most operations do. */
  lemma TouchKeeps(m: Man, id: int, i: Info, limbo: set<int>, uncounted: nat)
    requires Loose(m, limbo, uncounted) && id in m.info && SameShape(m.info[id], i)
    requires i.lastTry >= 0 && i.lastSuccess >= 0 && (i.inTried ==> i.lastSuccess != 0)
    ensures Loose(m.(info := m.info[id := i]), limbo, uncounted)
  {
    hide AddrsOk, RandomOk, TriedOk, NewsOk, CountsOk;
    var s := m.(info := m.info[id := i]);
    FrameMost(m, s, uncounted);
    NewsFrame(m, s);
  }

  // ---------------------------------------------------------------- creating an entry

  lemma CreateAddrs(m: Man, a: Address, source: int)
    requires AddrsOk(m) && TimesOk(m) && m.cfg.Key(a.service) !in m.addrs
    ensures AddrsOk(Create(m, a, source))
  {
    assert m.idCount !in m.info;
  }

  lemma CreateRandom(m: Man, a: Address, source: int)
    requires RandomOk(m) && TimesOk(m)
    ensures RandomOk(Create(m, a, source)) && TimesOk(Create(m, a, source))
  {
    assert m.idCount !in m.info;
  }

  lemma CreateNews(m: Man, a: Address, source: int)
    requires NewsOk(m) && TriedOk(m) && TimesOk(m)
    ensures NewsOk(Create(m, a, source)) && TriedOk(Create(m, a, source))
    ensures Slots(Create(m, a, source), m.idCount) == {}
  {
    var c := Create(m, a, source);
    assert m.idCount !in m.info;
    assert forall id :: Slots(c, id) == Slots(m, id);
    assert Slots(c, m.idCount) == {};
  }

  lemma CreateCounts(m: Man, a: Address, source: int)
    requires CountsOk(m, 0) && TimesOk(m)
    ensures CountsOk(Create(m, a, source).(nNew := m.nNew + 1), 0)
  {
    var c := Create(m, a, source).(nNew := m.nNew + 1);
    assert m.idCount !in m.info;
    assert TriedIds(c) == TriedIds(m);
    assert NewIds(c) == NewIds(m) + {m.idCount};
  }

  lemma CreateKeeps(m: Man, a: Address, source: int)
    requires Inv(m) && m.cfg.Key(a.service) !in m.addrs
    ensures m.idCount !in m.info
    ensures Loose(Create(m, a, source).(nNew := m.nNew + 1), {m.idCount}, 0)
  {
    hide AddrsOk, RandomOk, TriedOk, NewsOk, CountsOk;
    CreateAddrs(m, a, source);
    CreateRandom(m, a, source);
    CreateNews(m, a, source);
    CreateCounts(m, a, source);
    var c, s := Create(m, a, source), Create(m, a, source).(nNew := m.nNew + 1);
    AddrsFrame(c, s);
    RandomFrame(c, s);
    TriedFrame(c, s);
    NewsFrame(c, s);
  }

  // ---------------------------------------------------------------- swapping and deleting

  /** The same entry at another place in `random`. */
  ghost predicate OnlyMoved(i: Info, j: Info) { j == i.(randomPos := j.randomPos) }

  lemma SwapEffect(m: Man, i: nat, j: nat)
    requires CanSwap(m, i, j)
    ensures var s := SwapRandom(m, i, j);
            && SameIds(m, s) && |s.random| == |m.random| && s == m.(info := s.info, random := s.random)
            && forall id :: id in m.info ==> OnlyMoved(m.info[id], s.info[id])
  {
    if i != j {
      var x, y := m.random[i], m.random[j];
      var info := m.info[x := m.info[x].(randomPos := j)];
      assert forall id :: id in m.info <==> id in info;
      assert forall id :: id in m.info ==> OnlyMoved(m.info[id], info[id]);
    }
  }

  lemma SwapRandomOk(m: Man, i: nat, j: nat)
    requires RandomOk(m) && i < |m.random| && j < |m.random|
    ensures CanSwap(m, i, j) && RandomOk(SwapRandom(m, i, j))
  {
    var s := SwapRandom(m, i, j);
    forall id | id in s.info ensures 0 <= s.info[id].randomPos < |s.random| && s.random[s.info[id].randomPos] == id {
      assert id in m.info && m.random[m.info[id].randomPos] == id;
    }
  }

  lemma SwapKeeps(m: Man, i: nat, j: nat, limbo: set<int>, uncounted: nat)
    requires Loose(m, limbo, uncounted) && i < |m.random| && j < |m.random|
    ensures CanSwap(m, i, j) && Loose(SwapRandom(m, i, j), limbo, uncounted)
  {
    hide AddrsOk, RandomOk, TriedOk, NewsOk, CountsOk;
    SwapRandomOk(m, i, j);
    SwapEffect(m, i, j);
    var s := SwapRandom(m, i, j);
    AddrsFrame(m, s);
    TriedFrame(m, s);
    NewsFrame(m, s);
    CountsFrame(m, s, uncounted);
  }

  lemma DropAddrs(m: Man, id: int)
    requires AddrsOk(m) && id in m.info && m.random != []
    ensures AddrsOk(Drop(m, id))
  {
    var k := m.cfg.Key(m.info[id].addr);
    assert m.addrs[k] == id;
  }

  lemma DropRandom(m: Man, id: int)
    requires RandomOk(m) && id in m.info && m.random != [] && m.info[id].randomPos == |m.random| - 1
    ensures RandomOk(Drop(m, id))
  {
    assert m.random[|m.random| - 1] == id;
  }

  lemma DropTables(m: Man, id: int)
    requires TriedOk(m) && NewsOk(m) && id in m.info && !m.info[id].inTried && m.info[id].refCount == 0 && m.random != []
    ensures TriedOk(Drop(m, id)) && NewsOk(Drop(m, id))
  {
    var s := Drop(m, id);
    assert Slots(m, id) == {};
    forall p | p in m.news ensures m.news[p] != id {
      assert p !in Slots(m, id);
    }
    assert forall x :: Slots(s, x) == Slots(m, x);
  }

  lemma DropCounts(m: Man, id: int, uncounted: nat)
    requires CountsOk(m, uncounted) && id in m.info && !m.info[id].inTried && m.random != []
    ensures CountsOk(Drop(m, id), uncounted)
  {
    var s := Drop(m, id);
    assert TriedIds(s) == TriedIds(m);
    assert NewIds(s) == NewIds(m) - {id};
  }

  lemma DropKeeps(m: Man, id: int, limbo: set<int>, uncounted: nat)
    requires Loose(m, limbo, uncounted) && id in m.info && !m.info[id].inTried && m.info[id].refCount == 0
    requires m.random != [] && m.info[id].randomPos == |m.random| - 1
    ensures Loose(Drop(m, id), limbo, uncounted)
  {
    hide AddrsOk, RandomOk, TriedOk, NewsOk, CountsOk;
    DropAddrs(m, id);
    DropRandom(m, id);
    DropTables(m, id);
    DropCounts(m, id, uncounted);
  }

  /** No assert of `Delete` can fire on an entry without references. */
  lemma DeleteAllowed(m: Man, id: int)
    requires RandomOk(m) && id in m.info && !m.info[id].inTried && m.info[id].refCount == 0
    ensures CanDelete(m, id) && CanSwap(m, m.info[id].randomPos, |m.random| - 1)
    ensures SwapRandom(m, m.info[id].randomPos, |m.random| - 1).info[id].randomPos == |m.random| - 1
  {
    SwapRandomOk(m, m.info[id].randomPos, |m.random| - 1);
  }

  lemma DeleteKeeps(m: Man, id: int, limbo: set<int>, uncounted: nat)
    requires Loose(m, limbo, uncounted) && id in m.info && !m.info[id].inTried && m.info[id].refCount == 0
    ensures CanDelete(m, id) && Loose(Delete(m, id), limbo, uncounted)
  {
    hide AddrsOk, TriedOk, NewsOk, TimesOk, Settled, CountsOk;
    DeleteAllowed(m, id);
    SwapKeeps(m, m.info[id].randomPos, |m.random| - 1, limbo, uncounted);
    SwapEffect(m, m.info[id].randomPos, |m.random| - 1);
    DropKeeps(SwapRandom(m, m.info[id].randomPos, |m.random| - 1), id, limbo, uncounted);
  }

  /** `t` is `m` without the entries `gone`; the others only move in `random`. */
  ghost predicate Without(m: Man, gone: set<int>, t: Man) {
    && t.cfg == m.cfg && t.idCount == m.idCount
    && (forall x :: x in t.info <==> x in m.info && x !in gone)
    && (forall x :: x in t.info ==> OnlyMoved(m.info[x], t.info[x]))
  }

  lemma DeleteEffect(m: Man, id: int)
    requires RandomOk(m) && id in m.info && !m.info[id].inTried && m.info[id].refCount == 0
    ensures CanDelete(m, id) && Without(m, {id}, Delete(m, id))
    ensures Delete(m, id).news == m.news && Delete(m, id).tried == m.tried && Delete(m, id).lastGood == m.lastGood
    ensures Delete(m, id).addrs == m.addrs - {m.cfg.Key(m.info[id].addr)}
  {
    hide RandomOk, SwapRandom, CanSwap, CanDelete, Drop, Without, OnlyMoved, SameIds;
    DeleteAllowed(m, id);
    SwapEffect(m, m.info[id].randomPos, |m.random| - 1);
    DropEffect(m, SwapRandom(m, m.info[id].randomPos, |m.random| - 1), id);
  }

  lemma DropEffect(m: Man, s: Man, id: int)
    requires SameIds(m, s) && s == m.(info := s.info, random := s.random) && id in m.info && s.random != []
    requires forall x :: x in m.info ==> OnlyMoved(m.info[x], s.info[x])
    ensures var d := Drop(s, id);
            && Without(m, {id}, d) && d.addrs == m.addrs - {m.cfg.Key(m.info[id].addr)}
            && d.news == m.news && d.tried == m.tried && d.lastGood == m.lastGood
  {}

  // ---------------------------------------------------------------- clearing a new slot

  lemma UnrefNews(m: Man, p: Pos)
    requires NewsOk(m) && p in m.news
    ensures m.news[p] in m.info && NewsOk(Unref(m, p)) && m.info[m.news[p]].refCount > 0 && !m.info[m.news[p]].inTried
  {
    var id := m.news[p];
    var u := Unref(m, p);
    assert p in Slots(m, id);
    assert Slots(u, id) == Slots(m, id) - {p};
    forall x | x in u.info ensures u.info[x].refCount == |Slots(u, x)| && u.info[x].refCount <= NEW_BUCKETS_PER_ADDRESS {
      if x != id {
        assert x in m.info && Slots(u, x) == Slots(m, x);
      }
    }
    forall q | q in u.news
      ensures u.news[q] in u.info && !u.info[u.news[q]].inTried && q.bucket < NEW_BUCKETS
      ensures q == u.cfg.NewPosIn(u.info[u.news[q]].addr, q.bucket)
    {
      var x := m.news[q];
      assert x in m.info && x == u.news[q];
    }
  }

  lemma UnrefKeeps(m: Man, p: Pos, limbo: set<int>, uncounted: nat)
    requires Loose(m, limbo, uncounted) && p in m.news
    ensures m.news[p] in m.info && !m.info[m.news[p]].inTried && m.info[m.news[p]].refCount > 0
    ensures Loose(Unref(m, p), limbo + {m.news[p]}, uncounted)
  {
    hide AddrsOk, RandomOk, TriedOk, NewsOk, CountsOk;
    UnrefNews(m, p);
    FrameMost(m, Unref(m, p), uncounted);
  }

  /** No assert of `ClearNew` can fire, and the slot is empty afterwards. */
  lemma ClearNewKeeps(m: Man, p: Pos, limbo: set<int>, uncounted: nat)
    requires Loose(m, limbo, uncounted)
    ensures CanClear(m, p) && Loose(ClearNew(m, p), limbo, uncounted)
  {
    if p in m.news {
      var id := m.news[p];
      UnrefKeeps(m, p, limbo, uncounted);
      var u := Unref(m, p);
      if m.info[id].refCount == 1 {
        DeleteKeeps(u, id, limbo + {id}, uncounted);
        DeleteEffect(u, id);
        assert Settled(Delete(u, id), limbo);
      }
    }
  }

  /** The entry that clearing `p` deletes, if any. */
  function Doomed(m: Man, p: Pos): set<int> {
    if p in m.news && m.news[p] in m.info && m.info[m.news[p]].refCount == 1 then {m.news[p]} else {}
  }

  lemma ClearNewEffect(m: Man, p: Pos)
    requires RandomOk(m) && NewsOk(m)
    ensures CanClear(m, p)
    ensures var c := ClearNew(m, p);
            && c.cfg == m.cfg && c.idCount == m.idCount && c.tried == m.tried && c.news == m.news - {p}
            && (forall x :: x in c.info <==> x in m.info && x !in Doomed(m, p))
            && (forall x :: x in c.info && Some(x) != At(m.news, p) ==> OnlyMoved(m.info[x], c.info[x]))
  {
    if p in m.news {
      var id := m.news[p];
      UnrefNews(m, p);
      var u := Unref(m, p);
      if m.info[id].refCount == 1 {
        RandomFrame(m, u);
        DeleteEffect(u, id);
      }
    } else {
      assert m.news - {p} == m.news;
    }
  }

  function At(t: map<Pos, int>, p: Pos): Option<int> { if p in t then Some(t[p]) else None }

  // ---------------------------------------------------------------- Add_ keeps the invariant

  lemma RefNews(m: Man, p: Pos, id: int, n: int)
    requires NewsOk(m) && id in m.info && !m.info[id].inTried && p !in m.news && n == |Slots(m, id)| + 1 <= NEW_BUCKETS_PER_ADDRESS
    requires p.bucket < NEW_BUCKETS && p == m.cfg.NewPosIn(m.info[id].addr, p.bucket)
    ensures NewsOk(Ref(m, p, id, n))
  {
    var r := Ref(m, p, id, n);
    assert Slots(r, id) == Slots(m, id) + {p};
    forall x | x in r.info ensures r.info[x].refCount == |Slots(r, x)| && r.info[x].refCount <= NEW_BUCKETS_PER_ADDRESS {
      if x != id {
        assert x in m.info && Slots(r, x) == Slots(m, x);
      }
    }
    forall q | q in r.news
      ensures r.news[q] in r.info && !r.info[r.news[q]].inTried && q.bucket < NEW_BUCKETS
      ensures q == r.cfg.NewPosIn(r.info[r.news[q]].addr, q.bucket)
    {
      if q != p {
        var x := m.news[q];
        assert x in m.info && x == r.news[q];
      }
    }
  }

  lemma RefKeeps(m: Man, p: Pos, id: int, limbo: set<int>, uncounted: nat)
    requires Loose(m, limbo, uncounted) && id in m.info && !m.info[id].inTried && p !in m.news
    requires m.info[id].refCount < NEW_BUCKETS_PER_ADDRESS
    requires p.bucket < NEW_BUCKETS && p == m.cfg.NewPosIn(m.info[id].addr, p.bucket)
    ensures Loose(Ref(m, p, id, m.info[id].refCount + 1), limbo - {id}, uncounted)
  {
    hide AddrsOk, RandomOk, TriedOk, CountsOk, NewsOk;
    RefCountIs(m, id);
    RefNews(m, p, id, m.info[id].refCount + 1);
    FrameMost(m, Ref(m, p, id, m.info[id].refCount + 1), uncounted);
  }

  lemma RefCountIs(m: Man, id: int)
    requires NewsOk(m) && id in m.info
    ensures m.info[id].refCount == |Slots(m, id)|
  {}

  lemma OverwriteKeeps(m: Man, id: int, p: Pos)
    requires Loose(m, {id}, 0) && id in m.info && !m.info[id].inTried && m.info[id].refCount < NEW_BUCKETS_PER_ADDRESS
    requires p.bucket < NEW_BUCKETS && p == m.cfg.NewPosIn(m.info[id].addr, p.bucket) && At(m.news, p) != Some(id)
    ensures CanClear(m, p) && id in ClearNew(m, p).info
    ensures Inv(Ref(ClearNew(m, p), p, id, ClearNew(m, p).info[id].refCount + 1))
  {
    hide AddrsOk, RandomOk, TriedOk, NewsOk, TimesOk, Settled, CountsOk;
    ClearNewKeeps(m, p, {id}, 0);
    ClearNewEffect(m, p);
    var c := ClearNew(m, p);
    assert OnlyMoved(m.info[id], c.info[id]);
    RefKeeps(c, p, id, {id}, 0);
    assert {id} - {id} == {};
  }

  lemma InsertKeeps(m: Man, id: int, source: int, now: int)
    requires Loose(m, {id}, 0) && id in m.info && !m.info[id].inTried && m.info[id].refCount < NEW_BUCKETS_PER_ADDRESS
    ensures Inv(Insert(m, id, source, now))
  {
    hide AddrsOk, RandomOk, TriedOk, TimesOk, CountsOk;
    var p := m.cfg.NewPos(m.info[id].addr, source);
    if At(m.news, p) == Some(id) {
      assert p in Slots(m, id);
      assert Settled(m, {});
    } else if p !in m.news || Overwrites(m, p, id, now) {
      OverwriteKeeps(m, id, p);
    } else if m.info[id].refCount == 0 {
      DeleteKeeps(m, id, {id}, 0);
      DeleteEffect(m, id);
      assert Settled(Delete(m, id), {});
    } else {
      assert Settled(m, {});
    }
  }

  /** Under the invariant an address is found exactly when some entry has its key. */
  /** `Find` gives the one entry with the address, up to the port unless ports tell addresses apart. */
  lemma FindIsLookup(m: Man, a: Service)
    requires AddrsOk(m)
    ensures Find(m, a) == if m.cfg.Key(a) in m.addrs then Some(m.addrs[m.cfg.Key(a)]) else None
    ensures forall id :: Find(m, a) == Some(id) <==> id in m.info && m.cfg.Key(m.info[id].addr) == m.cfg.Key(a)
  {
    var k := m.cfg.Key(a);
    if k in m.addrs {
      var id := m.addrs[k];
      assert id in m.info && m.cfg.Key(m.info[id].addr) == k;
    }
  }

  lemma AddKnownKeeps(m: Man, id: int, a: Address, source: int, penalty: int, now: int, draw: nat)
    requires Inv(m) && id in m.info
    ensures Inv(AddKnown(m, id, a, source, penalty, now, draw))
  {
    hide Insert;
    var i := Refresh(m.info[id], a, penalty, now);
    TouchKeeps(m, id, i, {}, 0);
    var t := m.(info := m.info[id := i]);
    if MayRefer(i, a, draw) {
      LooseWeaken(t, id);
      InsertKeeps(t, id, source, now);
    }
  }

  lemma CreatedKeeps(m: Man, a: Address, source: int, penalty: int)
    requires Inv(m) && m.cfg.Key(a.service) !in m.addrs
    ensures var c := Created(m, a, source, penalty);
            Loose(c, {m.idCount}, 0) && m.idCount in c.info && !c.info[m.idCount].inTried && c.info[m.idCount].refCount == 0
  {
    hide Loose;
    CreateKeeps(m, a.(time := Max0(a.time - penalty)), source);
  }

  lemma AddUnknownKeeps(m: Man, a: Address, source: int, penalty: int, now: int)
    requires Inv(m) && m.cfg.Key(a.service) !in m.addrs
    ensures Inv(AddUnknown(m, a, source, penalty, now))
  {
    hide Insert, Loose, Created;
    CreatedKeeps(m, a, source, penalty);
    InsertKeeps(Created(m, a, source, penalty), m.idCount, source, now);
  }

  /** `Add_` keeps the whole invariant. */
  lemma AddKeeps(m: Man, a: Address, source: int, penalty: int, now: int, draw: nat, routable: bool)
    requires Inv(m)
    ensures Inv(Add(m, a, source, penalty, now, draw, routable).0)
  {
    hide AddKnown, AddUnknown;
    var penalty' := if a.service.ip == source then 0 else penalty;
    FindIsLookup(m, a.service);
    if routable {
      match Find(m, a.service)
      case Some(id) => AddKnownKeeps(m, id, a, source, penalty', now, draw);
      case None => AddUnknownKeeps(m, a, source, penalty', now);
    }
  }

  lemma LooseWeaken(m: Man, id: int)
    requires Inv(m)
    ensures Loose(m, {id}, 0)
  {}
}
