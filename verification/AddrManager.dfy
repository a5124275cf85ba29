/** The address manager object. Every method is specified by the function of the same name on `AddrMan.Man`. */
module AddrManager {
  import opened Prelude
  import opened AddrMan
  import opened AddrManRun
  import opened AddrManCheck
  import Arith

  /** The occupied slots of a table; -1 marks an empty one. */
  ghost function TableOf(t: array2<int>): (m: map<Pos, int>)
    reads t
  {
    map b: nat, i: nat | b < t.Length0 && i < t.Length1 && t[b, i] != -1 :: Pos(b, i) := t[b, i]
  }

  predicate Within(t: array2<int>, p: Pos) { p.bucket < t.Length0 && p.slot < t.Length1 }

  method SetSlot(t: array2<int>, p: Pos, id: int)
    requires Within(t, p)
    modifies t
    ensures TableOf(t) == if id == -1 then old(TableOf(t)) - {p} else old(TableOf(t))[p := id]
  {
    t[p.bucket, p.slot] := id;
    ghost var was := old(TableOf(t));
    ghost var want := if id == -1 then was - {p} else was[p := id];
    assert TableOf(t).Keys == want.Keys;
  }

  class AddrManager {
    const cfg: Config
    var idCount: nat
    var info: map<int, Info>
    var addrs: map<Service, int>
    var random: seq<int>
    var nTried: int
    const vvTried: array2<int>
    var nNew: int
    const vvNew: array2<int>
    var lastGood: int

    ghost predicate Shape() {
      && vvTried.Length0 == TRIED_BUCKETS && vvTried.Length1 == BUCKET_SIZE
      && vvNew.Length0 == NEW_BUCKETS && vvNew.Length1 == BUCKET_SIZE
      && vvTried != vvNew
    }

    ghost function Value(): Man
      reads this, vvTried, vvNew
    {
      Man(cfg, idCount, info, addrs, random, nTried, TableOf(vvTried), nNew, TableOf(vvNew), lastGood)
    }

    constructor (cfg: Config)
      ensures Shape() && Value() == Empty(cfg) && fresh(vvTried) && fresh(vvNew)
    {
      this.cfg := cfg;
      idCount, info, addrs, random, nTried, nNew, lastGood := 0, map[], map[], [], 0, 0, 1;
      vvTried := new int[TRIED_BUCKETS, BUCKET_SIZE]((_, _) => -1);
      vvNew := new int[NEW_BUCKETS, BUCKET_SIZE]((_, _) => -1);
    }

    method Find(a: Service) returns (r: Option<int>)
      ensures r == AddrMan.Find(Value(), a)
    {
      var k := cfg.Key(a);
      r := if k in addrs && addrs[k] in info then Some(addrs[k]) else None;
    }

    method Create(a: Address, source: int) returns (id: int)
      modifies this
      ensures Value() == AddrMan.Create(old(Value()), a, source) && id == old(idCount)
    {
      id := idCount;
      idCount := idCount + 1;
      info := info[id := Info(a.service, a.time, a.services, source, 0, 0, 0, 0, 0, false, -1)];
      addrs := addrs[cfg.Key(a.service) := id];
      info := info[id := info[id].(randomPos := |random|)];
      random := random + [id];
    }

    method SwapRandom(i: nat, j: nat)
      requires i == j || CanSwap(Value(), i, j)
      modifies `info, `random
      ensures Value() == AddrMan.SwapRandom(old(Value()), i, j)
    {
      if i == j {
        return;
      }
      var x, y := random[i], random[j];
      info := info[x := info[x].(randomPos := j)];
      info := info[y := info[y].(randomPos := i)];
      random := random[i := y];
      random := random[j := x];
    }

    method Delete(id: int)
      requires CanDelete(Value(), id)
      modifies this
      ensures Value() == AddrMan.Delete(old(Value()), id)
    {
      hide CanSwap, AddrMan.SwapRandom;
      var a := cfg.Key(info[id].addr);
      SwapShape(Value(), info[id].randomPos, |random| - 1, id);
      SwapRandom(info[id].randomPos, |random| - 1);
      random := random[..|random| - 1];
      addrs := addrs - {a};
      info := info - {id};
      nNew := nNew - 1;
    }

    method ClearNew(p: Pos)
      requires Shape() && Within(vvNew, p) && CanClear(Value(), p)
      requires p in TableOf(vvNew) ==> info[TableOf(vvNew)[p]].refCount > 0
      modifies this, vvNew
      ensures Value() == AddrMan.ClearNew(old(Value()), p)
    {
      var id := vvNew[p.bucket, p.slot];
      if id != -1 {
        assert p in TableOf(vvNew);
        info := info[id := info[id].(refCount := info[id].refCount - 1)];
        SetSlot(vvNew, p, -1);
        if info[id].refCount == 0 {
          Delete(id);
        }
      }
    }

    /** Write entry `id` into new slot `p`, for `n` references in all. */
    method Refer(id: int, p: Pos, n: int)
      requires Shape() && Within(vvNew, p) && id != -1 && id in info
      modifies `info, vvNew
      ensures Value() == Ref(old(Value()), p, id, n)
    {
      info := info[id := info[id].(refCount := n)];
      SetSlot(vvNew, p, id);
    }

    /** Clear new slot `p` and give it to entry `id`. */
    method TakeSlot(id: int, p: Pos)
      requires Shape() && Within(vvNew, p) && id != -1 && CanClear(Value(), p) && id in AddrMan.ClearNew(Value(), p).info
      requires p in TableOf(vvNew) ==> info[TableOf(vvNew)[p]].refCount > 0
      modifies this, vvNew
      ensures var c := AddrMan.ClearNew(old(Value()), p); Value() == Ref(c, p, id, c.info[id].refCount + 1)
    {
      hide AddrMan.ClearNew, CanClear;
      ClearNew(p);
      Refer(id, p, info[id].refCount + 1);
    }

    method IsOverwritable(id: int, p: Pos, now: int) returns (yes: bool)
      requires Shape() && NewsOk(Value()) && Within(vvNew, p) && id in info && vvNew[p.bucket, p.slot] != id
      ensures p in TableOf(vvNew) ==> TableOf(vvNew)[p] in info
      ensures yes <==> p !in TableOf(vvNew) || Overwrites(Value(), p, id, now)
    {
      var there := vvNew[p.bucket, p.slot];
      if there == -1 {
        return true;
      }
      assert p in Value().news && there in info;
      yes := IsTerrible(info[there], now) || (info[there].refCount > 1 && info[id].refCount == 0);
    }

    /** The last part of `Add_`. */
    method Insert(id: int, source: int, now: int)
      requires Shape() && Loose(Value(), {id}, 0) && id in info && !info[id].inTried
      modifies this, vvNew
      ensures Value() == AddrMan.Insert(old(Value()), id, source, now)
    {
      hide AddrsOk, RandomOk, TriedOk, NewsOk, TimesOk, Settled, CountsOk, Overwrites, Ref, AddrMan.ClearNew, CanClear, AddrMan.Delete, CanDelete;
      ghost var m := Value();
      var p := cfg.NewPos(info[id].addr, source);
      InsertCases(m, id, p);
      assert vvNew[p.bucket, p.slot] == id <==> At(m.news, p) == Some(id);
      if vvNew[p.bucket, p.slot] != id {
        var insert := IsOverwritable(id, p, now);
        if insert {
          TakeSlot(id, p);
        } else if info[id].refCount == 0 {
          Delete(id);
        }
      }
    }

    method Add(a: Address, source: int, penalty: int, now: int, draw: nat, routable: bool) returns (isNew: bool)
      requires Shape() && Inv(Value())
      modifies this, vvNew
      ensures (Value(), isNew) == AddrMan.Add(old(Value()), a, source, penalty, now, draw, routable)
      ensures Inv(Value())
    {
      AddKeeps(Value(), a, source, penalty, now, draw, routable);
      if !routable {
        return false;
      }
      var timePenalty := if a.service.ip == source then 0 else penalty;
      FindIsLookup(Value(), a.service);
      var r := Find(a.service);
      match r {
        case Some(id) =>
          isNew := false;
          AddToKnown(id, a, source, timePenalty, now, draw);
        case None =>
          isNew := true;
          AddNew(a, source, timePenalty, now);
      }
    }

    /** Whether `i` may gain a reference: the harder, the more it has. */
    method MayGain(i: Info, a: Address, draw: nat) returns (yes: bool)
      requires i.refCount >= 0
      ensures yes <==> MayRefer(i, a, draw)
    {
      if a.time == 0 || (i.time != 0 && a.time <= i.time) {
        return false;
      }
      if i.inTried || i.refCount == NEW_BUCKETS_PER_ADDRESS {
        return false;
      }
      var factor := 1;
      for n := 0 to i.refCount
        invariant factor == Arith.Pow2(n)
      {
        factor := factor * 2;
      }
      yes := !(factor > 1 && draw % factor != 0);
    }

    method AddToKnown(id: int, a: Address, source: int, penalty: int, now: int, draw: nat)
      requires Shape() && Inv(Value()) && id in info
      modifies this, vvNew
      ensures Value() == AddKnown(old(Value()), id, a, source, penalty, now, draw)
    {
      hide AddrMan.Insert, AddrsOk, RandomOk, TriedOk, Settled, CountsOk;
      TouchKeeps(Value(), id, Refresh(info[id], a, penalty, now), {}, 0);
      var i := Refresh(info[id], a, penalty, now);
      info := info[id := i];
      var more := MayGain(i, a, draw);
      if more {
        LooseWeaken(Value(), id);
        Insert(id, source, now);
      }
    }

    method AddNew(a: Address, source: int, penalty: int, now: int)
      requires Shape() && Inv(Value()) && cfg.Key(a.service) !in addrs
      modifies this, vvNew
      ensures Value() == AddUnknown(old(Value()), a, source, penalty, now)
    {
      hide AddrMan.Insert, Loose;
      CreateKeeps(Value(), a.(time := Max0(a.time - penalty)), source);
      var id := Create(a, source);
      info := info[id := info[id].(time := Max0(info[id].time - penalty))];
      nNew := nNew + 1;
      assert Value() == Created(old(Value()), a, source, penalty);
      Insert(id, source, now);
    }

    /** Empty the entry's own position in one new bucket. */
    method LeaveBucket(ghost m: Man, id: int, b: nat)
      requires Shape() && id in m.info && id != -1 && b < NEW_BUCKETS && Value() == UprootUpTo(m, id, b)
      modifies `info, vvNew
      ensures Value() == UprootUpTo(m, id, b + 1)
    {
      hide UprootUpTo;
      var p := cfg.NewPosIn(info[id].addr, b);
      UprootStep(m, id, b);
      assert vvNew[p.bucket, p.slot] == id <==> At(Value().news, p) == Some(id);
      if vvNew[p.bucket, p.slot] == id {
        SetSlot(vvNew, p, -1);
        info := info[id := info[id].(refCount := info[id].refCount - 1)];
      }
    }

    /** Empty the entry's own position in every new bucket. */
    method LeaveNew(id: int)
      requires Shape() && id in info && id != -1
      modifies this, vvNew
      ensures Value() == Uproot(old(Value()), id)
    {
      hide UprootUpTo;
      ghost var m := Value();
      UprootEnds(m, id);
      for b := 0 to NEW_BUCKETS
        invariant Value() == UprootUpTo(m, id, b)
      {
        LeaveBucket(m, id, b);
      }
      nNew := nNew - 1;
    }

    method EnterTried(id: int, p: Pos)
      requires Shape() && Within(vvTried, p) && id in info && id != -1
      modifies this, vvTried
      ensures Value() == Promote(old(Value()), id, p)
    {
      SetSlot(vvTried, p, id);
      nTried := nTried + 1;
      info := info[id := info[id].(inTried := true)];
    }

    method MakeTried(id: int)
      requires Shape() && Inv(Value()) && id in info && !info[id].inTried && info[id].lastSuccess != 0
      modifies this, vvNew, vvTried
      ensures CanMakeTried(old(Value()), id)
      ensures id in MakeRoom(Uproot(old(Value()), id), cfg.TriedPos(old(info)[id].addr)).info
      ensures Value() == AddrManRun.MakeTried(old(Value()), id)
    {
      hide Loose, Uproot, Promote, Replant, CanReplant, Demote, SafeToClear;
      ghost var m := Value();
      MakeTriedKeeps(m, id);
      TriedCases(m, id);
      var p := cfg.TriedPos(info[id].addr);
      LeaveNew(id);
      ghost var u := Value();
      assert vvTried[p.bucket, p.slot] != -1 <==> p in u.tried;
      if vvTried[p.bucket, p.slot] != -1 {
        EvictTried(p);
      }
      EnterTried(id, p);
    }

    /** Move the entry in tried slot `p` back to the new table. */
    method EvictTried(p: Pos)
      requires Shape() && Within(vvTried, p) && p in TableOf(vvTried) && TableOf(vvTried)[p] in info
      requires CanReplant(Demote(Value(), p), TableOf(vvTried)[p])
      requires var e := info[TableOf(vvTried)[p]]; SafeToClear(Demote(Value(), p), cfg.NewPos(e.addr, e.source))
      modifies this, vvNew, vvTried
      ensures Value() == Replant(Demote(old(Value()), p), old(TableOf(vvTried)[p]))
    {
      hide Replant, CanReplant, SafeToClear;
      var e := DemoteAt(p);
      ReplantAt(e);
    }

    method DemoteAt(p: Pos) returns (e: int)
      requires Shape() && Within(vvTried, p) && p in TableOf(vvTried) && TableOf(vvTried)[p] in info
      modifies this, vvTried
      ensures Shape() && e != -1 && e == old(TableOf(vvTried)[p]) && Value() == Demote(old(Value()), p)
    {
      ghost var m := Value();
      e := vvTried[p.bucket, p.slot];
      assert e == m.tried[p];
      info := info[e := info[e].(inTried := false)];
      SetSlot(vvTried, p, -1);
      nTried := nTried - 1;
    }

    method ReplantAt(e: int)
      requires Shape() && e != -1 && e in info && CanReplant(Value(), e)
      requires SafeToClear(Value(), cfg.NewPos(info[e].addr, info[e].source))
      modifies this, vvNew
      ensures Shape() && Value() == Replant(old(Value()), e)
    {
      var q := cfg.NewPos(info[e].addr, info[e].source);
      ClearNew(q);
      Refer(e, q, 1);
      nNew := nNew + 1;
    }

    method FindExact(a: Service) returns (r: Option<int>)
      ensures r == AddrManRun.FindExact(Value(), a)
    {
      r := Find(a);
      if r.Some? && info[r.value].addr != a {
        r := None;
      }
    }

    /** Look for a bucket that holds the entry, starting at a random one. */
    method FindBucket(id: int, rnd: nat) returns (found: bool)
      requires Shape() && id in info && id != -1 && rnd < NEW_BUCKETS
      ensures found <==> InSomeBucket(Value(), id)
    {
      var a := info[id].addr;
      for n := 0 to NEW_BUCKETS
        invariant forall b :: 0 <= b < NEW_BUCKETS && Distance(rnd, b) < n ==> At(TableOf(vvNew), cfg.NewPosIn(a, b)) != Some(id)
      {
        var p := cfg.NewPosIn(a, (n + rnd) % NEW_BUCKETS);
        assert vvNew[p.bucket, p.slot] == id <==> At(TableOf(vvNew), p) == Some(id);
        assert forall b :: 0 <= b < NEW_BUCKETS && Distance(rnd, b) == n ==> b == p.bucket;
        if vvNew[p.bucket, p.slot] == id {
          return true;
        }
      }
      found := false;
    }

    method Good(a: Service, time: int, rnd: nat)
      requires Shape() && Inv(Value()) && time > 0 && rnd < NEW_BUCKETS
      modifies this, vvNew, vvTried
      ensures Value() == AddrManRun.Good(old(Value()), a, time) && Inv(Value())
    {
      hide MakeRoom, Uproot, Loose, InSomeBucket, AddrManRun.MakeTried, CanMakeTried;
      GoodKeeps(Value(), a, time);
      ghost var m := Value();
      FoundIdIsReal(m, a);
      lastGood := time;
      var r := FindExact(a);
      if r.None? {
        return;
      }
      var id := r.value;
      info := info[id := Succeeded(info[id], time)];
      SucceededKeeps(m, id, time);
      assert Value() == Touch(m.(lastGood := time), id, Succeeded(m.info[id], time));
      if info[id].inTried {
        return;
      }
      var found := FindBucket(id, rnd);
      if found {
        MakeTried(id);
      }
    }

    method Attempt(a: Service, countFailure: bool, time: int)
      requires Inv(Value()) && time >= 0
      modifies `info
      ensures Value() == AddrManRun.Attempt(old(Value()), a, countFailure, time) && Inv(Value())
    {
      hide Loose;
      TouchesKeep(Value(), AttemptEvent(a, countFailure, time));
      var r := FindExact(a);
      if r.Some? {
        var i := info[r.value].(lastTry := time);
        if countFailure && i.lastCount < lastGood {
          i := i.(lastCount := time, attempts := i.attempts + 1);
        }
        info := info[r.value := i];
      }
    }

    method Connected(a: Service, time: int)
      requires Inv(Value())
      modifies `info
      ensures Value() == AddrManRun.Connected(old(Value()), a, time) && Inv(Value())
    {
      hide Loose;
      TouchesKeep(Value(), ConnectedEvent(a, time));
      var r := FindExact(a);
      if r.Some? && time - info[r.value].time > 20 * 60 {
        info := info[r.value := info[r.value].(time := time)];
      }
    }

    method SetServices(a: Service, services: bv64)
      requires Inv(Value())
      modifies `info
      ensures Value() == AddrManRun.SetServices(old(Value()), a, services) && Inv(Value())
    {
      hide Loose;
      TouchesKeep(Value(), ServicesEvent(a, services));
      var r := FindExact(a);
      if r.Some? {
        info := info[r.value := info[r.value].(services := services)];
      }
    }

    /** One round of the shuffle. */
    method PickNext(n: nat, out: seq<int>, now: int, rnd: nat -> nat) returns (ids: seq<int>)
      requires RandomOk(Value()) && n < |random|
      modifies `info, `random
      ensures RandomOk(Value()) && |random| == |old(random)|
      ensures var j := Draw(rnd, n, |random|);
              CanSwap(old(Value()), n, j) && Value() == AddrMan.SwapRandom(old(Value()), n, j)
      ensures ids == ShuffleStep(Value(), n, out, now)
    {
      hide AddrMan.SwapRandom, IsTerrible;
      var j := Draw(rnd, n, |random|);
      SwapRandomOk(Value(), n, j);
      SwapEffect(Value(), n, j);
      SwapRandom(n, j);
      ids := if IsTerrible(info[random[n]], now) then out else out + [random[n]];
    }

    method PickAll(limit: nat, now: int, rnd: nat -> nat) returns (ids: seq<int>)
      requires RandomOk(Value())
      modifies `info, `random
      ensures (Value(), ids) == Shuffle(old(Value()), 0, [], limit, now, rnd)
    {
      hide ShuffleStep, AddrMan.SwapRandom, Draw, RandomOk, CanSwap;
      ids := [];
      var n := 0;
      while n < |random| && |ids| < limit
        invariant RandomOk(Value()) && n <= |random|
        invariant Shuffle(Value(), n, ids, limit, now, rnd) == Shuffle(old(Value()), 0, [], limit, now, rnd)
        decreases |random| - n
      {
        ids := PickNext(n, ids, now, rnd);
        n := n + 1;
      }
    }

    method GetAddr(now: int, rnd: nat -> nat) returns (ids: seq<int>)
      requires Inv(Value())
      modifies `info, `random
      ensures RandomOk(old(Value())) && (Value(), ids) == AddrManRun.GetAddr(old(Value()), now, rnd)
      ensures Inv(Value()) && Chosen(Value(), ids, now)
      ensures |ids| == (if 23 * |old(random)| / 100 > 2500 then 2500 else 23 * |old(random)| / 100)
              || forall id :: id in old(info) && !IsTerrible(old(info)[id], now) ==> id in ids
    {
      hide Loose, Chosen, RandomOk, Shuffle, IsTerrible, SameButOrder;
      GetAddrKeeps(Value(), now, rnd);
      GetAddrAnswers(Value(), now, rnd);
      var limit := GETADDR_MAX_PCT * |random| / 100;
      if limit > GETADDR_MAX {
        limit := GETADDR_MAX;
      }
      ids := PickAll(limit, now, rnd);
    }

    // -------------------------------------------------------------- Check_

    /** What `Check_` asks of one entry. The full lookup puts a missing address into the index, for entry 0. */
    method CheckEntry(n: int, ghost m: Man) returns (code: int)
      requires Value() == m.(addrs := addrs) && Inv(m) && Strays(m, addrs) && n in info
      modifies `addrs
      ensures Value() == m.(addrs := addrs) && Strays(m, addrs)
      ensures code == if cfg.byPort || n == 0 || info[n].addr.port == 0 then 0 else -5
    {
      hide TriedOk, CountsOk, Strays;
      var i := info[n];
      if i.inTried { TriedHasNoSlot(m, n); }
      FullLookupIff(m, addrs, n);
      code := 0;
      if i.inTried {
        if i.lastSuccess == 0 { code := -1; } else if i.refCount != 0 { code := -2; }
      } else {
        if i.refCount < 0 || i.refCount > NEW_BUCKETS_PER_ADDRESS { code := -3; } else if i.refCount == 0 { code := -4; }
      }
      if code == 0 {
        var found := FullLookup(addrs, i.addr);
        if i.addr !in addrs { addrs := addrs[i.addr := 0]; }
        if found != n { code := -5; }
        else if i.randomPos < 0 || i.randomPos >= |random| || random[i.randomPos] != n { code := -14; }
        else if i.lastTry < 0 { code := -6; }
        else if i.lastSuccess < 0 { code := -8; }
      }
    }

    /** The entries in the order of their ids, collecting the tried ones and the references of the new ones. */
    method CheckEntries(ghost m: Man) returns (code: int, setTried: set<int>, mapNew: map<int, int>)
      requires Value() == m && Inv(m)
      modifies `addrs
      ensures Value() == m.(addrs := addrs) && Strays(m, addrs)
      ensures code == if FullyIndexed(m) then 0 else -5
      ensures code == 0 ==> setTried == TriedBelow(m, m.idCount) && mapNew == NewBelow(m, m.idCount)
    {
      hide Loose;
      code, setTried, mapNew := 0, {}, map[];
      var n := 0;
      while n < idCount && code == 0
        invariant n <= idCount && Value() == m.(addrs := addrs) && Strays(m, addrs)
        invariant code == 0 ==> setTried == TriedBelow(m, n) && mapNew == NewBelow(m, n)
        invariant code == 0 ==> cfg.byPort || forall id :: id in info && 0 < id < n ==> info[id].addr.port == 0
        invariant code == 0 || (code == -5 && !FullyIndexed(m))
        decreases idCount - n
      {
        BelowNext(m, n);
        if n in info {
          code := CheckEntry(n, m);
          if info[n].inTried { setTried := setTried + {n}; } else { mapNew := mapNew[n := info[n].refCount]; }
        }
        n := n + 1;
      }
      IdsBelow(m);
    }

    method CheckTriedRow(b: nat, left: set<int>) returns (code: int, rest: set<int>)
      requires Shape() && b < TRIED_BUCKETS && TriedOk(Value()) && left == TriedLeft(Value(), b, 0)
      ensures code == 0 && rest == TriedLeft(Value(), b + 1, 0)
    {
      hide TriedOk, TriedLeft;
      code, rest := 0, left;
      for i := 0 to BUCKET_SIZE
        invariant code == 0 && rest == TriedLeft(Value(), b, i)
      {
        TriedLeftNext(Value(), b, i);
        var id := vvTried[b, i];
        if id != -1 {
          assert TableOf(vvTried)[Pos(b, i)] == id;
          if id !in rest { code := -11; }
          else if cfg.TriedPos(info[id].addr).bucket != b { code := -17; }
          else if cfg.TriedPos(info[id].addr).slot != i { code := -18; }
          else { rest := rest - {id}; }
        }
      }
      TriedLeftEnds(Value(), b);
    }

    method CheckNewRow(b: nat, left: map<int, int>) returns (code: int, rest: map<int, int>)
      requires Shape() && b < NEW_BUCKETS && NewsOk(Value()) && left == NewLeft(Value(), b, 0)
      ensures code == 0 && rest == NewLeft(Value(), b + 1, 0)
    {
      hide NewsOk, NewLeft;
      code, rest := 0, left;
      for i := 0 to BUCKET_SIZE
        invariant code == 0 && rest == NewLeft(Value(), b, i)
      {
        var id := vvNew[b, i];
        if id == -1 {
          NewLeftSame(Value(), b, i);
        } else {
          assert TableOf(vvNew)[Pos(b, i)] == id;
          NewLeftNext(Value(), b, i);
          if id !in rest { code := -12; }
          else if cfg.NewPosIn(info[id].addr, b).slot != i { code := -19; }
          else if rest[id] == 1 { rest := rest - {id}; }
          else { rest := rest[id := rest[id] - 1]; }
        }
      }
      NewLeftEnds(Value(), b);
    }

    /** Both tables against what the entries promise. */
    method CheckTables(setTried: set<int>, mapNew: map<int, int>) returns (code: int)
      requires Shape() && TriedOk(Value()) && NewsOk(Value())
      requires setTried == TriedLeft(Value(), 0, 0) && mapNew == NewLeft(Value(), 0, 0)
      ensures code == 0
    {
      hide TriedOk, NewsOk, TriedLeft, NewLeft;
      code := 0;
      var tried := setTried;
      for b := 0 to TRIED_BUCKETS
        invariant code == 0 && tried == TriedLeft(Value(), b, 0)
      {
        if code == 0 { code, tried := CheckTriedRow(b, tried); }
      }
      TriedLeftEnds(Value(), 0);
      var news := mapNew;
      for b := 0 to NEW_BUCKETS
        invariant code == 0 && news == NewLeft(Value(), b, 0)
      {
        if code == 0 { code, news := CheckNewRow(b, news); }
      }
      NewLeftEnds(Value(), 0);
      if code == 0 && tried != {} { code := -13; }
      if code == 0 && news != map[] { code := -15; }
    }

    /** `Check_`: nothing is wrong, unless a full lookup misses an entry. What the lookups leave behind, `Find` never sees. */
    method Check(keyed: bool) returns (code: int)
      requires Shape() && Inv(Value())
      modifies `addrs
      ensures code == if !FullyIndexed(old(Value())) then -5 else if keyed then 0 else -16
      ensures Value() == old(Value()).(addrs := addrs) && Strays(old(Value()), addrs)
      ensures forall a :: AddrMan.Find(Value(), a) == AddrMan.Find(old(Value()), a)
    {
      hide TriedLeft, NewLeft, TriedBelow, NewBelow, Strays, AddrMan.Find, AddrsOk, TriedOk, NewsOk, RandomOk, CountsOk, TimesOk, Settled;
      ghost var m := Value();
      SizesAgree(m);
      if |random| != nTried + nNew { code := -7; }
      else {
        var setTried, mapNew;
        code, setTried, mapNew := CheckEntries(m);
        AllCollected(m);
        if code == 0 {
          if |setTried| != nTried { code := -9; }
          else if |mapNew| != nNew { code := -10; }
          else {
            TablesFrame(m, Value());
            code := CheckTables(setTried, mapNew);
            if code == 0 && !keyed { code := -16; }
          }
        }
      }
      forall a ensures AddrMan.Find(Value(), a) == AddrMan.Find(m, a) { StraysUnseen(m, addrs, a); }
    }
  }

  lemma FoundIdIsReal(m: Man, a: Service)
    requires Inv(m)
    ensures AddrManRun.FindExact(m, a) != Some(-1)
  {}

  /** How many steps from bucket `from` to bucket `b`, going round. */
  function Distance(from: nat, b: nat): int { if b >= from then b - from else b - from + NEW_BUCKETS }

  /** The own slots in the first `b` buckets. */
  ghost function OwnUpTo(m: Man, id: int, b: nat): set<Pos>
    requires id in m.info
  {
    set p | p in OwnSlots(m, id) && p.bucket < b
  }

  /** Part-way through leaving the new table. */
  ghost function UprootUpTo(m: Man, id: int, b: nat): (u: Man)
    requires id in m.info
    ensures id in u.info && u.info[id].addr == m.info[id].addr && u.cfg == m.cfg && u.nNew == m.nNew
  {
    m.(news := m.news - OwnUpTo(m, id, b),
       info := m.info[id := m.info[id].(refCount := m.info[id].refCount - |OwnUpTo(m, id, b)|)])
  }

  lemma UprootStep(m: Man, id: int, b: nat)
    requires id in m.info && b < NEW_BUCKETS
    ensures var u := UprootUpTo(m, id, b);
            var p := m.cfg.NewPosIn(m.info[id].addr, b);
            UprootUpTo(m, id, b + 1) ==
              if At(u.news, p) == Some(id) then
                u.(news := u.news - {p}, info := u.info[id := u.info[id].(refCount := u.info[id].refCount - 1)])
              else u
  {
    var p := m.cfg.NewPosIn(m.info[id].addr, b);
    var d := OwnUpTo(m, id, b);
    if At(m.news, p) == Some(id) {
      assert OwnUpTo(m, id, b + 1) == d + {p};
      assert m.news - d - {p} == m.news - (d + {p});
    } else {
      assert OwnUpTo(m, id, b + 1) == d;
    }
  }

  lemma UprootEnds(m: Man, id: int)
    requires id in m.info
    ensures UprootUpTo(m, id, 0) == m && UprootUpTo(m, id, NEW_BUCKETS).(nNew := m.nNew - 1) == Uproot(m, id)
  {
    assert OwnUpTo(m, id, 0) == {};
    assert OwnUpTo(m, id, NEW_BUCKETS) == OwnSlots(m, id);
  }

  lemma SwapShape(m: Man, i: nat, j: nat, id: int)
    requires (i == j || CanSwap(m, i, j)) && id in m.info
    ensures var t := AddrMan.SwapRandom(m, i, j);
            |t.random| == |m.random| && t.cfg == m.cfg && id in t.info && t.info[id].addr == m.info[id].addr
  {}

  ghost predicate SafeToClear(m: Man, p: Pos) {
    CanClear(m, p) && (p in m.news ==> m.info[m.news[p]].refCount > 0)
  }

  /** What the branches of `MakeTried` need. */
  lemma TriedCases(m: Man, id: int)
    requires Inv(m) && id in m.info && !m.info[id].inTried && CanMakeTried(m, id)
    ensures id != -1
    ensures var u := Uproot(m, id); var p := m.cfg.TriedPos(m.info[id].addr);
            p in u.tried ==> u.tried[p] in u.info && SafeToClear(Demote(u, p), m.cfg.NewPos(u.info[u.tried[p]].addr, u.info[u.tried[p]].source))
  {
    var u := Uproot(m, id);
    var p := m.cfg.TriedPos(m.info[id].addr);
    UprootKeeps(m, id);
    if p in u.tried {
      DemoteKeeps(u, p, {id}, 1);
      var e := u.info[u.tried[p]];
      SlotIsReferenced(Demote(u, p), m.cfg.NewPos(e.addr, e.source));
      ClearNewEffect(Demote(u, p), m.cfg.NewPos(e.addr, e.source));
    }
  }

  /** What the branches of `Insert` need. */
  lemma InsertCases(m: Man, id: int, p: Pos)
    requires Loose(m, {id}, 0) && id in m.info && !m.info[id].inTried
    ensures id != -1
    ensures CanClear(m, p) && (p in m.news ==> m.news[p] in m.info && m.info[m.news[p]].refCount > 0)
    ensures At(m.news, p) != Some(id) ==> id in AddrMan.ClearNew(m, p).info
    ensures m.info[id].refCount == 0 ==> CanDelete(m, id)
  {
    SlotIsReferenced(m, p);
    ClearNewEffect(m, p);
    if m.info[id].refCount == 0 {
      DeleteAllowed(m, id);
    }
  }

  /** A slot in use belongs to an entry with references. */
  lemma SlotIsReferenced(m: Man, p: Pos)
    requires NewsOk(m)
    ensures p in m.news ==> m.news[p] in m.info && m.info[m.news[p]].refCount > 0
  {
    if p in m.news {
      UnrefNews(m, p);
    }
  }
}
