/** What the operations of the address manager do to the entries, beyond keeping the tables in order. */
module AddrManEffects {
  import opened Prelude
  import opened AddrMan
  import opened AddrManRun
  import Arith

  /** An entry apart from its places in the tables. */
  function Facts(i: Info): Info { i.(refCount := 0, inTried := false, randomPos := 0) }

  // ---------------------------------------------------------------- Add_

  /** `Add_` reports a new address if and only if it is routable and no entry has it. */
  lemma AddReportsNewIff(m: Man, a: Address, source: int, penalty: int, now: int, draw: nat, routable: bool)
    requires Inv(m)
    ensures Add(m, a, source, penalty, now, draw, routable).1
            <==> routable && forall id :: id in m.info ==> m.cfg.Key(m.info[id].addr) != m.cfg.Key(a.service)
    ensures !routable ==> Add(m, a, source, penalty, now, draw, routable).0 == m
  {
    hide AddKnown, AddUnknown;
    FindIsLookup(m, a.service);
    if Find(m, a.service).Some? { assert Find(m, a.service) == Some(Find(m, a.service).value); }
  }

  /** The time an address is filed under: less a penalty, unless the address announces itself. */
  function FiledTime(a: Address, source: int, penalty: int): int {
    Max0(a.time - if a.service.ip == source then 0 else penalty)
  }

  /** A new address that finds room is a new entry with one reference, as it was announced. */
  lemma AddNewEntry(m: Man, a: Address, source: int, penalty: int, now: int, draw: nat)
    requires Inv(m) && Find(m, a.service).None?
    ensures var t := Add(m, a, source, penalty, now, draw, true).0;
            m.idCount in t.info ==>
              && t.info[m.idCount].(randomPos := 0) == Info(a.service, FiledTime(a, source, penalty), a.services, source, 0, 0, 0, 0, 1, false, 0)
              && At(t.news, m.cfg.NewPos(a.service, source)) == Some(m.idCount)
  {
    hide AddUnknown, RandomOk, TriedOk, NewsOk;
    FindIsLookup(m, a.service);
    AddUnknownEntry(m, a, source, if a.service.ip == source then 0 else penalty, now);
  }

  lemma AddUnknownEntry(m: Man, a: Address, source: int, penalty: int, now: int)
    requires Inv(m) && m.cfg.Key(a.service) !in m.addrs
    ensures var t := AddUnknown(m, a, source, penalty, now);
            m.idCount in t.info ==>
              && t.info[m.idCount].(randomPos := 0) == Info(a.service, Max0(a.time - penalty), a.services, source, 0, 0, 0, 0, 1, false, 0)
              && At(t.news, m.cfg.NewPos(a.service, source)) == Some(m.idCount)
  {
    hide AddrsOk, TriedOk, Settled, CountsOk, IsTerrible;
    CreatedKeeps(m, a, source, penalty);
    var c, id := Created(m, a, source, penalty), m.idCount;
    var p := m.cfg.NewPos(a.service, source);
    var filed := a.(time := Max0(a.time - penalty));
    CreateNews(m, filed, source);
    SlotsOfNews(c, Create(m, filed, source), id);
    assert At(c.news, p) == Some(id) ==> p in Slots(c, id);
    InsertEntry(c, id, source, now);
  }

  lemma SlotsOfNews(m: Man, t: Man, id: int)
    requires m.news == t.news
    ensures Slots(m, id) == Slots(t, id)
  {}

  predicate InsertGains(m: Man, id: int, source: int, now: int)
    requires id in m.info
  {
    var p := m.cfg.NewPos(m.info[id].addr, source);
    At(m.news, p) != Some(id) && (p !in m.news || (m.news[p] in m.info && Overwrites(m, p, id, now)))
  }

  /** Inserting an entry that is not in its slot yet: it gains that slot, is dropped, or stays as it is. */
  lemma InsertEntry(m: Man, id: int, source: int, now: int)
    requires Loose(m, {id}, 0) && id in m.info && !m.info[id].inTried
    ensures var p := m.cfg.NewPos(m.info[id].addr, source);
            var t := Insert(m, id, source, now);
            var gains := InsertGains(m, id, source, now);
            && (gains ==> id in t.info && At(t.news, p) == Some(id)
                          && t.info[id].(randomPos := 0) == m.info[id].(randomPos := 0, refCount := m.info[id].refCount + 1))
            && (!gains ==> if At(m.news, p) == Some(id) || m.info[id].refCount != 0 then t == m else id !in t.info)
  {
    hide AddrsOk, TriedOk, TimesOk, Settled, CountsOk, IsTerrible;
    var p := m.cfg.NewPos(m.info[id].addr, source);
    if p in m.news {
      var x := m.news[p];
      assert x in m.info;
    }
    if At(m.news, p) == Some(id) {
    } else if p !in m.news || Overwrites(m, p, id, now) {
      ClearNewKeeps(m, p, {id}, 0);
      ClearNewEffect(m, p);
      assert OnlyMoved(m.info[id], ClearNew(m, p).info[id]);
    } else if m.info[id].refCount == 0 {
      DeleteAllowed(m, id);
      DeleteEffect(m, id);
    }
  }

  /** What a repeated announcement changes: services add up, and the time never goes back. */
  lemma RefreshEffect(i: Info, a: Address, penalty: int, now: int)
    requires penalty >= 0
    ensures var j := Refresh(i, a, penalty, now);
            && j == i.(time := j.time, services := i.services | a.services)
            && j.time in {i.time, Max0(a.time - penalty)} && (i.time >= 0 ==> j.time >= i.time)
            && (a.time - penalty - DAY > i.time > 0 ==> j.time == a.time - penalty)
  {}

  /** The known entry may gain the slot of the new source: the draw lets it, and the slot is free or holds a terrible entry. */
  predicate Gains(m: Man, id: int, a: Address, source: int, penalty: int, now: int, draw: nat)
    requires id in m.info
  {
    var p := m.cfg.NewPos(m.info[id].addr, source);
    && MayRefer(Refresh(m.info[id], a, penalty, now), a, draw) && At(m.news, p) != Some(id)
    && (p !in m.news || (m.news[p] in m.info && IsTerrible(m.info[m.news[p]], now)))
  }

  /** A repeated announcement refreshes the entry, and gives it one more reference exactly where it gains a slot. */
  lemma AddKnownEntry(m: Man, id: int, a: Address, source: int, penalty: int, now: int, draw: nat)
    requires Inv(m) && id in m.info
    ensures var t := AddKnown(m, id, a, source, penalty, now, draw); var gains := Gains(m, id, a, source, penalty, now, draw);
            && id in t.info
            && t.info[id].(randomPos := 0)
               == Refresh(m.info[id], a, penalty, now).(randomPos := 0, refCount := m.info[id].refCount + if gains then 1 else 0)
            && (gains ==> At(t.news, m.cfg.NewPos(m.info[id].addr, source)) == Some(id)) && (!gains ==> t.news == m.news)
  {
    hide Insert, AddrsOk, RandomOk, TriedOk, NewsOk, CountsOk, IsTerrible, MayRefer, Refresh, InsertGains;
    var i := Refresh(m.info[id], a, penalty, now);
    RefreshPlaces(m.info[id], a, penalty, now);
    TouchKeeps(m, id, i, {}, 0);
    var t := m.(info := m.info[id := i]);
    MayReferMeans(i, a, draw);
    if MayRefer(i, a, draw) {
      LooseWeaken(t, id);
      InsertEntry(t, id, source, now);
      OccupantSame(m, t, id, i, source, now);
    }
  }

  lemma RefreshPlaces(i: Info, a: Address, penalty: int, now: int)
    ensures var j := Refresh(i, a, penalty, now); j == i.(time := j.time, services := j.services)
  {}

  lemma MayReferMeans(i: Info, a: Address, draw: nat)
    ensures MayRefer(i, a, draw) ==> !i.inTried
  {}

  lemma OccupantSame(m: Man, t: Man, id: int, i: Info, source: int, now: int)
    requires id in m.info && t == m.(info := m.info[id := i]) && i.addr == m.info[id].addr && i.refCount > 0
    ensures var p := m.cfg.NewPos(i.addr, source);
            InsertGains(t, id, source, now)
            <==> At(m.news, p) != Some(id) && (p !in m.news || (m.news[p] in m.info && IsTerrible(m.info[m.news[p]], now)))
  {
    hide IsTerrible;
  }

  /** With `n` references the next one is drawn once in 2^n times. */
  lemma ChanceHalves(i: Info, a: Address, draw: nat)
    requires i.refCount > 0 && draw < Arith.Pow2(i.refCount)
    requires a.time != 0 && (i.time == 0 || a.time > i.time) && !i.inTried && i.refCount != 8
    ensures MayRefer(i, a, draw) <==> draw == 0
  {
    Arith.DivModUnique(draw, Arith.Pow2(i.refCount), 0, draw);
  }

  /** The draws of the shuffle can bring any entry that is left to any place. */
  lemma DrawReaches(n: nat, len: nat, j: nat)
    requires n <= j < len
    ensures Draw(_ => j - n, n, len) == j
  {}

  // ---------------------------------------------------------------- Good_

  /** The tried entry that has to make room for `a`. */
  function Evicted(m: Man, a: Service): Option<int> { At(m.tried, m.cfg.TriedPos(a)) }

  /** A success resets the entry's failures, and nothing else about any entry. Only an entry that the evicted one displaces
    * from its last new slot is lost, and the evicted one is back in the new table, in the slot of its own source.
    */
  lemma GoodEntries(m: Man, a: Service, time: int)
    requires Inv(m) && time > 0 && FindExact(m, a).Some?
    ensures var id := FindExact(m, a).value; var t := Good(m, a, time); var e := Evicted(m, a);
            && id in t.info && Facts(t.info[id]) == Facts(m.info[id]).(lastSuccess := time, lastTry := time, attempts := 0)
            && (forall x :: x in t.info && x != id ==> x in m.info && Facts(t.info[x]) == Facts(m.info[x]))
            && (forall x :: x in m.info && x !in t.info ==>
                  !m.info[id].inTried && e.Some? && e.value in m.info && m.info[x].refCount == 1
                  && At(m.news, m.cfg.NewPos(m.info[e.value].addr, m.info[e.value].source)) == Some(x))
            && (!m.info[id].inTried && e.Some? ==>
                  e.value in t.info && !t.info[e.value].inTried && t.info[e.value].refCount == 1
                  && At(t.news, m.cfg.NewPos(t.info[e.value].addr, t.info[e.value].source)) == e)
            && t.lastGood == time
  {
    hide MakeTried, InSomeBucket, Loose;
    var id := FindExact(m, a).value;
    SucceededKeeps(m, id, time);
    var t := Touch(m.(lastGood := time), id, Succeeded(m.info[id], time));
    if !t.info[id].inTried {
      NewIsInSomeBucket(t, id);
      MakeTriedKeeps(t, id);
      MakeTriedEntries(t, id);
    }
  }

  /** A success of an unknown address changes no entry, but counts as the last one. */
  lemma GoodUnknown(m: Man, a: Service, time: int)
    requires Inv(m) && time > 0 && FindExact(m, a).None?
    ensures Good(m, a, time) == m.(lastGood := time)
  {}

  ghost predicate SameFacts(m: Man, t: Man) {
    forall x :: x in t.info ==> x in m.info && Facts(t.info[x]) == Facts(m.info[x])
  }

  lemma MakeTriedEntries(m: Man, id: int)
    requires Inv(m) && id in m.info && !m.info[id].inTried && m.info[id].lastSuccess != 0
    ensures CanMakeTried(m, id) && id in MakeRoom(Uproot(m, id), m.cfg.TriedPos(m.info[id].addr)).info
    ensures var t := MakeTried(m, id); var e := At(m.tried, m.cfg.TriedPos(m.info[id].addr));
            && SameFacts(m, t) && t.lastGood == m.lastGood
            && (forall x :: x in m.info && x !in t.info ==>
                  e.Some? && e.value in m.info && m.info[x].refCount == 1
                  && At(m.news, m.cfg.NewPos(m.info[e.value].addr, m.info[e.value].source)) == Some(x))
            && (e.Some? ==>
                  e.value in t.info && !t.info[e.value].inTried && t.info[e.value].refCount == 1
                  && At(t.news, m.cfg.NewPos(t.info[e.value].addr, t.info[e.value].source)) == e)
  {
    hide AddrsOk, RandomOk, TriedOk, NewsOk, TimesOk, Settled, CountsOk, SameFacts, Uproot, Demote, Replant, Slots;
    MakeTriedKeeps(m, id);
    var p := m.cfg.TriedPos(m.info[id].addr);
    var u := Uproot(m, id);
    UprootKeeps(m, id);
    UprootFacts(m, id);
    if p in m.tried {
      EvictEntries(m, u, id, p);
    }
    PromoteFacts(MakeRoom(u, p), id, p);
    SameFactsTwice(m, MakeRoom(u, p), MakeTried(m, id));
  }

  lemma SameFactsTwice(m: Man, t: Man, u: Man)
    requires SameFacts(m, t) && SameFacts(t, u)
    ensures SameFacts(m, u)
  {}

  lemma UprootFacts(m: Man, id: int)
    requires NewsOk(m) && id in m.info
    ensures var u := Uproot(m, id);
            && SameFacts(m, u) && u.cfg == m.cfg && u.tried == m.tried && u.lastGood == m.lastGood && u.info.Keys == m.info.Keys
            && (forall x :: x in m.info && x != id ==> u.info[x] == m.info[x])
            && (forall q :: q in u.news ==> q in m.news && u.news[q] == m.news[q] && u.news[q] != id)
  {
    UprootNews(m, id);
  }

  lemma PromoteFacts(m: Man, id: int, p: Pos)
    requires id in m.info
    ensures var t := Promote(m, id, p);
            && SameFacts(m, t) && t.lastGood == m.lastGood && t.news == m.news && t.info.Keys == m.info.Keys
            && forall x :: x in m.info && x != id ==> t.info[x] == m.info[x]
  {}

  /** Clearing a slot changes no facts; only its entry may go, with its last reference. */
  lemma ClearNewFacts(m: Man, p: Pos)
    requires RandomOk(m) && NewsOk(m)
    ensures CanClear(m, p) && SameFacts(m, ClearNew(m, p)) && ClearNew(m, p).lastGood == m.lastGood
  {
    hide RandomOk, NewsOk;
    ClearNewEffect(m, p);
    if p in m.news && m.info[m.news[p]].refCount == 1 {
      var u := Unref(m, p);
      ClearedLast(m, p);
      forall x | x in Delete(u, m.news[p]).info ensures x in m.info && Facts(Delete(u, m.news[p]).info[x]) == Facts(m.info[x]) {
        assert OnlyMoved(u.info[x], Delete(u, m.news[p]).info[x]);
      }
    }
  }

  lemma ClearedLast(m: Man, p: Pos)
    requires RandomOk(m) && NewsOk(m) && p in m.news && m.news[p] in m.info && m.info[m.news[p]].refCount == 1
    ensures var u, id := Unref(m, p), m.news[p];
            CanDelete(u, id) && Without(u, {id}, Delete(u, id)) && Delete(u, id).lastGood == u.lastGood
  {
    var id := m.news[p];
    assert !m.info[id].inTried;
    RandomFrame(m, Unref(m, p));
    DeleteEffect(Unref(m, p), id);
  }

  lemma ReplantFacts(m: Man, e: int)
    requires RandomOk(m) && NewsOk(m) && CanReplant(m, e) && Slots(m, e) == {}
    ensures var t := Replant(m, e); var q := m.cfg.NewPos(m.info[e].addr, m.info[e].source);
            && SameFacts(m, t) && t.lastGood == m.lastGood && t.cfg == m.cfg
            && (forall x :: x in m.info && x !in t.info ==> x in Doomed(m, q))
            && e in t.info && t.info[e].refCount == 1 && At(t.news, q) == Some(e) && t.info[e].inTried == m.info[e].inTried
  {
    hide RandomOk, NewsOk, ClearNew, Facts;
    var q := m.cfg.NewPos(m.info[e].addr, m.info[e].source);
    ClearNewEffect(m, q);
    ClearNewFacts(m, q);
    assert At(m.news, q) == Some(e) ==> q in Slots(m, e);
    var c := ClearNew(m, q);
    assert OnlyMoved(m.info[e], c.info[e]);
    RefFacts(c, q, e);
    SameFactsTwice(m, c, Ref(c, q, e, 1));
  }

  lemma RefFacts(m: Man, p: Pos, id: int)
    requires id in m.info
    ensures SameFacts(m, Ref(m, p, id, 1))
  {}

  lemma EvictEntries(m: Man, u: Man, id: int, p: Pos)
    requires Inv(m) && id in m.info && u == Uproot(m, id) && !m.info[id].inTried && p == m.cfg.TriedPos(m.info[id].addr) && p in m.tried
    requires Loose(u, {id}, 1) && p in u.tried && u.tried[p] in u.info && CanReplant(Demote(u, p), u.tried[p])
    ensures var t := MakeRoom(u, p); var e := m.tried[p];
            && e in m.info && e != id && SameFacts(m, t) && t.lastGood == m.lastGood && t.cfg == m.cfg
            && (forall x :: x in m.info && x !in t.info ==>
                  m.info[x].refCount == 1 && At(m.news, m.cfg.NewPos(m.info[e].addr, m.info[e].source)) == Some(x))
            && e in t.info && !t.info[e].inTried && t.info[e].refCount == 1
            && At(t.news, m.cfg.NewPos(t.info[e].addr, t.info[e].source)) == Some(e)
  {
    hide AddrsOk, RandomOk, TimesOk, Settled, CountsOk, SameFacts, Uproot, Replant, Facts, Doomed, Slots;
    UprootFacts(m, id);
    var e := m.tried[p];
    assert e in m.info && m.info[e].inTried;
    DemoteKeeps(u, p, {id}, 1);
    TriedHasNoSlot(u, e);
    var d := Demote(u, p);
    DemoteFacts(u, p);
    SlotsOfNews(d, u, e);
    HoldsNone(u, e);
    ReplantFacts(d, e);
    SameFactsTwice(m, u, d);
    SameFactsTwice(m, d, Replant(d, e));
    FactsSame(m, Replant(d, e), e);
    LostWas(m, d, id, e, m.cfg.NewPos(m.info[e].addr, m.info[e].source));
  }

  /** The entry that loses its last slot held it before, and had no other. */
  lemma LostWas(m: Man, d: Man, id: int, e: int, q: Pos)
    requires d.info.Keys == m.info.Keys && (forall x :: x in m.info && x != id && x != e ==> d.info[x] == m.info[x])
    requires forall p :: p in d.news ==> p in m.news && d.news[p] == m.news[p] && d.news[p] != id && d.news[p] != e
    ensures forall x :: x in Doomed(d, q) ==> x in m.info && m.info[x].refCount == 1 && At(m.news, q) == Some(x)
  {}

  lemma HoldsNone(m: Man, e: int)
    requires Slots(m, e) == {}
    ensures forall p :: p in m.news ==> m.news[p] != e
  {
    forall p | p in m.news ensures m.news[p] != e { assert p !in Slots(m, e); }
  }

  lemma DemoteFacts(m: Man, p: Pos)
    requires p in m.tried && m.tried[p] in m.info
    ensures SameFacts(m, Demote(m, p)) && Demote(m, p).info.Keys == m.info.Keys
  {}

  lemma FactsSame(m: Man, t: Man, x: int)
    requires SameFacts(m, t) && x in t.info
    ensures x in m.info && t.info[x].addr == m.info[x].addr && t.info[x].source == m.info[x].source
  {
    var i := Facts(m.info[x]);
    assert Facts(t.info[x]) == i;
  }

  // ---------------------------------------------------------------- Attempt_, Connected_ and SetServices_

  /** Apart from one entry nothing has changed, and of that entry its address and its places have not. */
  ghost predicate OnlyEntry(m: Man, t: Man, id: int) {
    && id in m.info && id in t.info && t == m.(info := t.info) && t.info == m.info[id := t.info[id]]
    && t.info[id].addr == m.info[id].addr && t.info[id].source == m.info[id].source
    && t.info[id].refCount == m.info[id].refCount && t.info[id].inTried == m.info[id].inTried && t.info[id].randomPos == m.info[id].randomPos
    && t.info[id].lastSuccess == m.info[id].lastSuccess
  }

  /** An attempt is recorded with the one entry of exactly that address; its failures grow by one at most. */
  lemma AttemptEffect(m: Man, a: Service, countFailure: bool, time: int)
    ensures var t := Attempt(m, a, countFailure, time);
            if FindExact(m, a).None? then t == m
            else var id := FindExact(m, a).value;
                 && OnlyEntry(m, t, id) && t.info[id].lastTry == time && t.info[id].time == m.info[id].time
                 && t.info[id].services == m.info[id].services
                 && t.info[id].attempts - m.info[id].attempts == (if countFailure && m.info[id].lastCount < m.lastGood then 1 else 0)
  {}

  /** Between two successes of any address, failed attempts at one address count once. */
  lemma FailuresCountOnce(m: Man, a: Service, times: seq<int>)
    requires Inv(m) && FindExact(m, a).Some? && times != [] && forall i :: 0 <= i < |times| ==> times[i] >= m.lastGood
    ensures var id := FindExact(m, a).value; var t := AttemptAll(m, a, times);
            id in t.info && t.info[id].attempts == m.info[id].attempts + if m.info[id].lastCount < m.lastGood then 1 else 0
  {
    var t := Attempt(m, a, true, times[0]);
    AttemptFinds(m, a, times[0]);
    NoMoreFailures(t, a, times[1..]);
  }

  function AttemptAll(m: Man, a: Service, times: seq<int>): Man
    decreases |times|
  {
    if times == [] then m else AttemptAll(Attempt(m, a, true, times[0]), a, times[1..])
  }

  lemma AttemptFinds(m: Man, a: Service, time: int)
    requires FindExact(m, a).Some?
    ensures FindExact(Attempt(m, a, true, time), a) == FindExact(m, a)
  {}

  lemma {:induction false} NoMoreFailures(m: Man, a: Service, times: seq<int>)
    requires FindExact(m, a).Some? && m.info[FindExact(m, a).value].lastCount >= m.lastGood
    ensures var id := FindExact(m, a).value; var t := AttemptAll(m, a, times);
            id in t.info && t.info[id].attempts == m.info[id].attempts
    decreases |times|
  {
    if times != [] {
      AttemptFinds(m, a, times[0]);
      NoMoreFailures(Attempt(m, a, true, times[0]), a, times[1..]);
    }
  }

  /** A connection keeps the entry's time within twenty minutes, and never turns it back. */
  lemma ConnectedEffect(m: Man, a: Service, time: int)
    ensures var t := Connected(m, a, time);
            if FindExact(m, a).None? then t == m
            else var id := FindExact(m, a).value; var i, j := m.info[id], t.info[id];
                 && OnlyEntry(m, t, id) && j == i.(time := j.time)
                 && j.time in {i.time, time} && j.time >= i.time && j.time >= time - 20 * 60 && (time - i.time <= 20 * 60 ==> t == m)
  {}

  lemma SetServicesEffect(m: Man, a: Service, services: bv64)
    ensures var t := SetServices(m, a, services);
            if FindExact(m, a).None? then t == m
            else var id := FindExact(m, a).value;
                 OnlyEntry(m, t, id) && t.info[id] == m.info[id].(services := services)
  {}

  /** Which entries are not worth keeping: none tried in the last minute, and of the others those from the future, not seen
    * for a month, never reached in three attempts, or not reached for a week in ten.
    */
  lemma TerribleIff(i: Info, now: int)
    ensures IsTerrible(i, now) <==>
              && !(i.lastTry != 0 && now - i.lastTry <= 60)
              && (i.time > now + 600
                  || i.time == 0 || now - i.time > 30 * 86400
                  || (i.lastSuccess == 0 && i.attempts >= 3)
                  || (now - i.lastSuccess > 7 * 86400 && i.attempts >= 10))
  {}

  /** An address is not terrible in the minute after a success or an attempt. */
  lemma TriedIsNotTerrible(m: Man, a: Service, time: int, now: int)
    requires Inv(m) && FindExact(m, a).Some? && 0 < time && now <= time + 60
    ensures var id := FindExact(m, a).value;
            && id in Good(m, a, time).info && !IsTerrible(Good(m, a, time).info[id], now)
            && id in Attempt(m, a, false, time).info && !IsTerrible(Attempt(m, a, false, time).info[id], now)
  {
    hide Good, Inv;
    GoodEntries(m, a, time);
    var id := FindExact(m, a).value;
    var i := Facts(Good(m, a, time).info[id]);
    assert i.lastTry == time;
  }
}
