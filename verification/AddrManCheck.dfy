/** `Check_`, the consistency check of the address manager, on managers that satisfy `Inv`. It looks addresses up by their
  * full service, where `Find` drops the port unless ports tell addresses apart: `FullyIndexed` is when the two agree.
  */
module AddrManCheck {
  import opened Prelude
  import opened AddrMan
  import opened AddrManRun

  /** A full lookup finds every entry; a missing one counts as entry 0, which is what the lookup then inserts. */
  predicate FullyIndexed(m: Man) {
    m.cfg.byPort || forall id :: id in m.info && id != 0 ==> m.info[id].addr.port == 0
  }

  function FullLookup(addrs: map<Service, int>, a: Service): int { if a in addrs then addrs[a] else 0 }

  /** Full lookups have left nothing in the address index but zeroes under addresses with a port. */
  ghost predicate Strays(m: Man, addrs: map<Service, int>) {
    && (forall k :: k in m.addrs ==> k in addrs && addrs[k] == m.addrs[k])
    && (forall k :: k in addrs && k !in m.addrs ==> !m.cfg.byPort && k.port != 0 && addrs[k] == 0)
  }

  lemma FullLookupIff(m: Man, addrs: map<Service, int>, id: int)
    requires AddrsOk(m) && Strays(m, addrs) && id in m.info
    ensures var a := m.info[id].addr;
            && (FullLookup(addrs, a) == id <==> m.cfg.byPort || id == 0 || a.port == 0)
            && Strays(m, if a in addrs then addrs else addrs[a := 0])
  {
    var a := m.info[id].addr;
    var k := m.cfg.Key(a);
    assert k in m.addrs && m.addrs[k] == id;
    KeysDropPort(m, a);
  }

  lemma KeysDropPort(m: Man, a: Service)
    requires AddrsOk(m)
    ensures a in m.addrs ==> m.cfg.byPort || a.port == 0
  {
    if a in m.addrs {
      var x := m.addrs[a];
      assert x in m.info && m.cfg.Key(m.info[x].addr) == a;
    }
  }

  /** Strays are out of reach of `Find`. */
  lemma StraysUnseen(m: Man, addrs: map<Service, int>, a: Service)
    requires AddrsOk(m) && Strays(m, addrs)
    ensures Find(m.(addrs := addrs), a) == Find(m, a)
  {
    var k := m.cfg.Key(a);
    assert k in addrs && k !in m.addrs ==> false;
  }

  // ---------------------------------------------------------------- what is left to find

  predicate Before(p: Pos, b: nat, i: nat) { p.bucket < b || (p.bucket == b && p.slot < i) }

  /** The tried entries whose slot is not before slot `i` of bucket `b`. */
  function TriedLeft(m: Man, b: nat, i: nat): set<int> {
    set id | id in m.info && m.info[id].inTried && !Before(m.cfg.TriedPos(m.info[id].addr), b, i)
  }

  lemma TriedLeftNext(m: Man, b: nat, i: nat)
    requires TriedOk(m)
    ensures var p := Pos(b, i);
            && (p in m.tried ==> m.tried[p] in m.info && m.tried[p] in TriedLeft(m, b, i) && m.cfg.TriedPos(m.info[m.tried[p]].addr) == p)
            && TriedLeft(m, b, i + 1) == TriedLeft(m, b, i) - if p in m.tried then {m.tried[p]} else {}
  {
    hide Config.TriedPos;
    var p := Pos(b, i);
    if p in m.tried {
      var x := m.tried[p];
      assert x in m.info && p == m.cfg.TriedPos(m.info[x].addr);
    }
    forall id | id in m.info && m.info[id].inTried
      ensures id in TriedLeft(m, b, i + 1) <==> id in TriedLeft(m, b, i) && !(p in m.tried && m.tried[p] == id)
    {
      var q := m.cfg.TriedPos(m.info[id].addr);
      assert q in m.tried && m.tried[q] == id;
    }
    assert TriedLeft(m, b, i + 1) == TriedLeft(m, b, i) - if p in m.tried then {m.tried[p]} else {};
  }

  lemma TriedPosWithin(cfg: Config, a: Service)
    ensures cfg.TriedPos(a).bucket < TRIED_BUCKETS && cfg.TriedPos(a).slot < BUCKET_SIZE
  {}

  lemma TriedLeftEnds(m: Man, b: nat)
    ensures TriedLeft(m, b, BUCKET_SIZE) == TriedLeft(m, b + 1, 0)
    ensures TriedLeft(m, 0, 0) == TriedIds(m) && TriedLeft(m, TRIED_BUCKETS, 0) == {}
  {
    forall id | id in m.info && m.info[id].inTried
      ensures id in TriedLeft(m, b, BUCKET_SIZE) <==> id in TriedLeft(m, b + 1, 0)
      ensures id in TriedLeft(m, 0, 0) && id !in TriedLeft(m, TRIED_BUCKETS, 0)
    {
      TriedPosWithin(m.cfg, m.info[id].addr);
    }
    assert TriedLeft(m, b, BUCKET_SIZE) == TriedLeft(m, b + 1, 0);
    assert TriedLeft(m, 0, 0) == TriedIds(m);
    assert TriedLeft(m, TRIED_BUCKETS, 0) == {};
  }

  /** The new slots of `id` from slot `i` of bucket `b` on. */
  function SlotsLeft(m: Man, id: int, b: nat, i: nat): set<Pos> { set p | p in Slots(m, id) && !Before(p, b, i) }

  /** The new entries with slots left, and how many. */
  function NewLeft(m: Man, b: nat, i: nat): map<int, int> {
    map id | id in m.info && !m.info[id].inTried && SlotsLeft(m, id, b, i) != {} :: |SlotsLeft(m, id, b, i)|
  }

  lemma SlotsLeftNext(m: Man, id: int, b: nat, i: nat)
    ensures var p := Pos(b, i);
            && (p in m.news && m.news[p] == id ==>
                  p in SlotsLeft(m, id, b, i) && SlotsLeft(m, id, b, i) == SlotsLeft(m, id, b, i + 1) + {p}
                  && |SlotsLeft(m, id, b, i)| == |SlotsLeft(m, id, b, i + 1)| + 1)
            && (p !in m.news || m.news[p] != id ==> SlotsLeft(m, id, b, i) == SlotsLeft(m, id, b, i + 1))
  {
    var p := Pos(b, i);
    if p in m.news && m.news[p] == id {
      assert SlotsLeft(m, id, b, i) == SlotsLeft(m, id, b, i + 1) + {p};
    } else {
      assert SlotsLeft(m, id, b, i) == SlotsLeft(m, id, b, i + 1);
    }
  }

  lemma NewLeftSame(m: Man, b: nat, i: nat)
    requires Pos(b, i) !in m.news
    ensures NewLeft(m, b, i + 1) == NewLeft(m, b, i)
  {
    hide SlotsLeft;
    forall id | id in m.info ensures SlotsLeft(m, id, b, i) == SlotsLeft(m, id, b, i + 1) { SlotsLeftNext(m, id, b, i); }
    assert NewLeft(m, b, i + 1).Keys == NewLeft(m, b, i).Keys;
  }

  lemma NewLeftNext(m: Man, b: nat, i: nat)
    requires NewsOk(m) && Pos(b, i) in m.news
    ensures var id, left := m.news[Pos(b, i)], NewLeft(m, b, i);
            && id in left && id in m.info && m.cfg.NewPosIn(m.info[id].addr, b) == Pos(b, i)
            && NewLeft(m, b, i + 1) == if left[id] == 1 then left - {id} else left[id := left[id] - 1]
  {
    hide SlotsLeft, Slots, Config.NewPosIn;
    var p := Pos(b, i);
    var id := m.news[p];
    assert id in m.info && !m.info[id].inTried && p == m.cfg.NewPosIn(m.info[id].addr, b);
    SlotsLeftNext(m, id, b, i);
    forall x | x in m.info && x != id ensures SlotsLeft(m, x, b, i) == SlotsLeft(m, x, b, i + 1) { SlotsLeftNext(m, x, b, i); }
    NoneLeft(m, id, b, i + 1);
    var left, next := NewLeft(m, b, i), NewLeft(m, b, i + 1);
    if left[id] == 1 {
      assert next.Keys == (left - {id}).Keys;
    } else {
      assert next.Keys == left[id := left[id] - 1].Keys;
    }
  }

  lemma NoneLeft(m: Man, id: int, b: nat, i: nat)
    ensures |SlotsLeft(m, id, b, i)| == 0 <==> SlotsLeft(m, id, b, i) == {}
  {}

  /** The new entries below `n`, with their references. */
  function NewBelow(m: Man, n: nat): map<int, int> { map id | id in m.info && 0 <= id < n && !m.info[id].inTried :: m.info[id].refCount }

  function TriedBelow(m: Man, n: nat): set<int> { set id | id in m.info && 0 <= id < n && m.info[id].inTried }

  lemma SlotsLeftEnds(m: Man, id: int, b: nat)
    requires NewsOk(m)
    ensures SlotsLeft(m, id, b, BUCKET_SIZE) == SlotsLeft(m, id, b + 1, 0)
    ensures SlotsLeft(m, id, 0, 0) == Slots(m, id) && SlotsLeft(m, id, NEW_BUCKETS, 0) == {}
  {
    forall p | p in Slots(m, id) ensures p.slot < BUCKET_SIZE && p.bucket < NEW_BUCKETS { assert p in m.news; }
  }

  lemma NewLeftEnds(m: Man, b: nat)
    requires NewsOk(m)
    ensures NewLeft(m, b, BUCKET_SIZE) == NewLeft(m, b + 1, 0)
    ensures NewLeft(m, NEW_BUCKETS, 0) == map[]
  {
    forall id | id in m.info
      ensures SlotsLeft(m, id, b, BUCKET_SIZE) == SlotsLeft(m, id, b + 1, 0)
      ensures SlotsLeft(m, id, NEW_BUCKETS, 0) == {}
    {
      SlotsLeftEnds(m, id, b);
    }
    assert NewLeft(m, b, BUCKET_SIZE).Keys == NewLeft(m, b + 1, 0).Keys;
  }

  /** The entry loop has collected all the tried entries, and all the new ones with all their references. */
  lemma AllCollected(m: Man)
    requires Inv(m)
    ensures TriedBelow(m, m.idCount) == TriedLeft(m, 0, 0) && |TriedLeft(m, 0, 0)| == m.nTried
    ensures NewBelow(m, m.idCount) == NewLeft(m, 0, 0) && |NewLeft(m, 0, 0)| == m.nNew
  {
    hide AddrsOk, RandomOk, TriedOk;
    TriedLeftEnds(m, 0);
    forall id | id in m.info
      ensures SlotsLeft(m, id, 0, 0) == Slots(m, id) && (!m.info[id].inTried ==> SlotsLeft(m, id, 0, 0) != {})
    {
      SlotsLeftEnds(m, id, 0);
    }
    assert TriedBelow(m, m.idCount) == TriedIds(m);
    assert NewLeft(m, 0, 0).Keys == NewIds(m) == NewBelow(m, m.idCount).Keys;
    assert |NewLeft(m, 0, 0)| == |NewLeft(m, 0, 0).Keys|;
  }

  lemma BelowNext(m: Man, n: nat)
    ensures TriedBelow(m, n + 1) == TriedBelow(m, n) + if n in m.info && m.info[n].inTried then {n} else {}
    ensures NewBelow(m, n + 1) == if n in m.info && !m.info[n].inTried then NewBelow(m, n)[n := m.info[n].refCount] else NewBelow(m, n)
  {
    assert NewBelow(m, n + 1).Keys
        == (if n in m.info && !m.info[n].inTried then NewBelow(m, n)[n := m.info[n].refCount] else NewBelow(m, n)).Keys;
  }

  lemma IdsBelow(m: Man)
    requires Inv(m)
    ensures forall id :: id in m.info ==> 0 <= id < m.idCount
  {}

  /** The tables and what is left of them do not depend on the address index. */
  lemma TablesFrame(m: Man, t: Man)
    requires t == m.(addrs := t.addrs)
    ensures TriedOk(m) ==> TriedOk(t)
    ensures NewsOk(m) ==> NewsOk(t)
    ensures TriedLeft(t, 0, 0) == TriedLeft(m, 0, 0) && NewLeft(t, 0, 0) == NewLeft(m, 0, 0)
  {
    forall id ensures Slots(t, id) == Slots(m, id) {}
    forall id ensures SlotsLeft(t, id, 0, 0) == SlotsLeft(m, id, 0, 0) {}
    assert NewLeft(t, 0, 0).Keys == NewLeft(m, 0, 0).Keys;
    if TriedOk(m) { TriedFrame(m, t); }
    if NewsOk(m) { NewsFrame(m, t); }
  }

  // ---------------------------------------------------------------- a run that fails the check

  lemma AddFree(m: Man, a: Address, source: int, penalty: int, now: int)
    requires Inv(m) && m.cfg.Key(a.service) !in m.addrs && m.cfg.NewPos(a.service, source) !in m.news
    ensures var t := AddUnknown(m, a, source, penalty, now);
            && t.cfg == m.cfg && t.idCount == m.idCount + 1
            && m.idCount in t.info && t.info[m.idCount].addr == a.service
            && t.addrs == m.addrs[m.cfg.Key(a.service) := m.idCount] && t.news == m.news[m.cfg.NewPos(a.service, source) := m.idCount]
  {
    hide Loose;
    CreatedKeeps(m, a, source, penalty);
  }

  lemma RunOne(m: Man, e: Event)
    requires Inv(m) && Sane(e)
    ensures Run(m, [e]) == Step(m, e)
  {
    hide Loose, Step;
    StepKeeps(m, e);
    assert [e][1..] == [];
  }

  /** Where ports do not tell addresses apart, two addresses that share no slot fail the check once both are known. */
  lemma CheckCanFail(cfg: Config, a: Address, b: Address, source: int, now: int)
    requires !cfg.byPort && a.service.ip != b.service.ip && b.service.port != 0
    requires cfg.NewPos(a.service, source) != cfg.NewPos(b.service, source)
    ensures Inv(Empty(cfg))
    ensures !FullyIndexed(Run(Empty(cfg), [AddEvent(a, source, 0, now, 0, true), AddEvent(b, source, 0, now, 0, true)]))
  {
    hide AddUnknown, Loose;
    EmptyInv(cfg);
    var x, y := AddEvent(a, source, 0, now, 0, true), AddEvent(b, source, 0, now, 0, true);
    AddFree(Empty(cfg), a, source, 0, now);
    var t := Step(Empty(cfg), x);
    StepKeeps(Empty(cfg), x);
    AddFree(t, b, source, 0, now);
    RunOne(t, y);
    assert [x, y][1..] == [y];
    assert Run(Empty(cfg), [x, y]) == Run(t, [y]);
    assert 1 in Step(t, y).info;
  }
}
