/** The receiver of a compact block as an object. */
module PartialBlock {
  import opened Prelude
  import opened CompactBlock
  import opened BlockScan

  /** Slot `p` belongs to one of the first `n` occurrences of short id `x`. */
  predicate Leads(c: Compact, x: nat, p: nat, n: nat)
    requires PrefillsOk(c) && n <= |c.shortIds|
  {
    exists i :: 0 <= i < n && c.shortIds[i] == x && p == SlotOf(c, i)
  }

  /** Each short id leads to a slot of its own. */
  predicate IndexOk(c: Compact, ids: map<nat, nat>, n: nat)
    requires PrefillsOk(c) && n <= |c.shortIds|
  {
    && (forall i :: 0 <= i < n ==> c.shortIds[i] in ids)
    && forall x :: x in ids ==> Leads(c, x, ids[x], n)
  }

  predicate DistinctIds(c: Compact) { forall i, j :: 0 <= i < j < |c.shortIds| ==> c.shortIds[i] != c.shortIds[j] }

  predicate DistinctUpTo(c: Compact, n: nat)
    requires n <= |c.shortIds|
  {
    forall i, j :: 0 <= i < j < n ==> c.shortIds[i] != c.shortIds[j]
  }

  /** No short id ends up in a crowded bucket. */
  predicate Roomy(c: Compact, crowded: nat -> bool) { forall i :: 0 <= i < |c.shortIds| ==> !crowded(i) }

  /** Reading refuses the message as malformed. */
  predicate Malformed(c: Compact, maxTxs: nat) {
    c.headerNull || c.TxCount() == 0 || c.TxCount() > maxTxs || !PrefillsOk(c)
  }

  /** Malformed are also messages with a null transaction, one beyond slot 65535, or one that leaves slots to nobody. */
  lemma MalformedBy(c: Compact, maxTxs: nat, i: nat)
    requires i < |c.prefilled|
    requires c.prefilled[i].tx == NULL_TX || Position(c, i) > 65535 || Position(c, i) > |c.shortIds| + i
    ensures Malformed(c, maxTxs)
  {
    assert !PrefillOk(c, i);
  }

  function Elements(ts: seq<TxRef>): set<TxRef> { set t | t in ts }

  predicate Indexed(c: Compact, ids: map<nat, nat>) {
    PrefillsOk(c) && IndexOk(c, ids, |c.shortIds|) && DistinctIds(c) && |ids| == |c.shortIds|
  }

  /** The slots filled are the prefilled ones and as many more as counted. */
  predicate Counted(c: Compact, s: Slots, n: int) { |s| - |Free(s)| == |c.prefilled| + n }

  /** Only slots marked as seen were filled from the pool. */
  predicate Tracks(c: Compact, ids: map<nat, nat>, have: seq<bool>, s: Slots) {
    |have| == |s| && forall x :: x in ids ==> ids[x] < |s| && (!have[ids[x]] ==> s[ids[x]].None?)
  }

  function Prepend(done: seq<TxRef>, rest: Option<seq<TxRef>>): Option<seq<TxRef>> {
    match rest
    case None => None
    case Some(ts) => Some(done + ts)
  }

  lemma PrependNothing(rest: Option<seq<TxRef>>)
    ensures Prepend([], rest) == rest
  {
    if rest.Some? { assert [] + rest.value == rest.value; }
  }

  lemma PrependNext(done: seq<TxRef>, t: TxRef, rest: Option<seq<TxRef>>)
    ensures Prepend(done + [t], rest) == Prepend(done, Cons(t, rest))
  {
    if rest.Some? { assert done + [t] + rest.value == done + ([t] + rest.value); }
  }

  // ---------------------------------------------------------------- scanning

  lemma InRange(c: Compact, ids: map<nat, nat>, x: nat)
    requires Indexed(c, ids) && x in ids
    ensures ids[x] < c.TxCount() && Placed(c, |c.prefilled|)[ids[x]].None?
  {
    assert Leads(c, x, ids[x], |c.shortIds|);
  }

  lemma ScanStart(c: Compact, short: ShortId, pool: set<TxRef>, ids: map<nat, nat>, have: seq<bool>)
    requires Indexed(c, ids) && have == seq(c.TxCount(), _ => false)
    ensures var s := Placed(c, |c.prefilled|);
            AllFit(c, short, pool, s) && Counted(c, s, 0) && Tracks(c, ids, have, s)
  {
    FreeCount(c, |c.prefilled|);
    forall x | x in ids ensures ids[x] < c.TxCount() && Placed(c, |c.prefilled|)[ids[x]].None? { InRange(c, ids, x); }
  }

  lemma PlacedLength(c: Compact)
    requires PrefillsOk(c)
    ensures |Placed(c, |c.prefilled|)| == c.TxCount()
  {}

  lemma Untracked(c: Compact, ids: map<nat, nat>, have: seq<bool>, s: Slots)
    requires Tracks(c, ids, have, s)
    ensures |have| == |s| && forall x :: x in ids ==> ids[x] < |s| && (!have[ids[x]] ==> s[ids[x]].None?)
  {}

  lemma SlotCount(c: Compact, short: ShortId, pool: set<TxRef>, ids: map<nat, nat>, have: seq<bool>, s: Slots)
    requires PrefillsOk(c) && AllFit(c, short, pool, s) && Tracks(c, ids, have, s)
    ensures |have| == |s| == c.TxCount()
  {}

  /** Each short id leads to its own slot. */
  lemma SlotsAreOwn(c: Compact, ids: map<nat, nat>)
    requires Indexed(c, ids)
    ensures OwnSlots(ids, c.TxCount())
    ensures forall i :: 0 <= i < |c.shortIds| ==> c.shortIds[i] in ids && ids[c.shortIds[i]] == SlotOf(c, i)
  {
    hide SlotOf, Placed, PrefillsOk;
    forall x | x in ids ensures ids[x] < c.TxCount() { InRange(c, ids, x); }
    forall i | 0 <= i < |c.shortIds| ensures ids[c.shortIds[i]] == SlotOf(c, i) {
      assert Leads(c, c.shortIds[i], ids[c.shortIds[i]], |c.shortIds|);
    }
    forall x, y | x in ids && y in ids && x != y ensures ids[x] != ids[y] {
      assert Leads(c, x, ids[x], |c.shortIds|) && Leads(c, y, ids[y], |c.shortIds|);
      var i :| 0 <= i < |c.shortIds| && c.shortIds[i] == x && ids[x] == SlotOf(c, i);
      var j :| 0 <= j < |c.shortIds| && c.shortIds[j] == y && ids[y] == SlotOf(c, j);
      if i < j { SlotsAscend(c, i, j); } else { SlotsAscend(c, j, i); }
    }
  }

  /** With as many finds as short ids every slot is filled, with a match where it was not prefilled. */
  lemma AllFound(c: Compact, short: ShortId, pool: set<TxRef>, ids: map<nat, nat>, s: Slots, n: int)
    requires Indexed(c, ids) && AllFit(c, short, pool, s) && Counted(c, s, n) && n == |ids|
    ensures forall x :: x in ids ==> ids[x] < |s| && s[ids[x]].Some? && s[ids[x]].value in pool && short(s[ids[x]].value) == x
  {
    hide SlotOf, Placed, PrefillsOk;
    forall x | x in ids ensures ids[x] < |s| && s[ids[x]].Some? && s[ids[x]].value in pool && short(s[ids[x]].value) == x {
      InRange(c, ids, x);
      NoneFree(s, ids[x]);
      assert Fits(c, short, pool, ids[x], s[ids[x]]);
      SlotIdIs(c, short, pool, ids, x, s[ids[x]].value);
    }
  }

  lemma NoneFree(s: Slots, p: nat)
    requires |Free(s)| == 0 && p < |s|
    ensures s[p].Some?
  {
    FreeFromMember(s, 0, p);
  }

  lemma SlotIdIs(c: Compact, short: ShortId, pool: set<TxRef>, ids: map<nat, nat>, x: nat, t: TxRef)
    requires Indexed(c, ids) && x in ids && Matches(c, short, pool, ids[x], t)
    ensures short(t) == x
  {
    hide SlotOf, Placed, PrefillsOk, IndexOk;
    SlotsAreOwn(c, ids);
    var i :| 0 <= i < |c.shortIds| && SlotOf(c, i) == ids[x] && short(t) == c.shortIds[i];
    assert ids[c.shortIds[i]] == ids[x];
  }

  lemma MorePool(c: Compact, short: ShortId, pool: set<TxRef>, all: set<TxRef>, s: Slots)
    requires PrefillsOk(c) && AllFit(c, short, pool, s) && pool <= all
    ensures AllFit(c, short, all, s)
  {
    forall p | 0 <= p < |s| ensures Fits(c, short, all, p, s[p]) { assert Fits(c, short, pool, p, s[p]); }
  }

  lemma Take(c: Compact, short: ShortId, pool: set<TxRef>, ids: map<nat, nat>, have: seq<bool>, s: Slots, n: int, t: TxRef)
    requires Indexed(c, ids) && AllFit(c, short, pool, s) && Counted(c, s, n) && Tracks(c, ids, have, s)
    requires t in pool && short(t) in ids && !have[ids[short(t)]]
    ensures var p := ids[short(t)]; var s2 := s[p := Some(t)];
            AllFit(c, short, pool, s2) && Counted(c, s2, n + 1) && Tracks(c, ids, have[p := true], s2)
  {
    hide SlotOf, Placed, FreeFrom;
    var p := ids[short(t)];
    InRange(c, ids, short(t));
    assert Leads(c, short(t), p, |c.shortIds|);
    assert Matches(c, short, pool, p, t);
    var s2 := s[p := Some(t)];
    forall q | 0 <= q < |s| ensures Fits(c, short, pool, q, s2[q]) { assert Fits(c, short, pool, q, s[q]); }
    FillOne(s, 0, p, t);
  }

  lemma Drop(c: Compact, short: ShortId, pool: set<TxRef>, ids: map<nat, nat>, have: seq<bool>, s: Slots, n: int, x: nat)
    requires Indexed(c, ids) && AllFit(c, short, pool, s) && Counted(c, s, n) && Tracks(c, ids, have, s)
    requires x in ids && s[ids[x]].Some?
    ensures var s2 := s[ids[x] := None];
            AllFit(c, short, pool, s2) && Counted(c, s2, n - 1) && Tracks(c, ids, have, s2)
  {
    hide SlotOf, Placed, FreeFrom;
    var p := ids[x];
    var s2 := s[p := None];
    InRange(c, ids, x);
    forall q | 0 <= q < |s| ensures Fits(c, short, pool, q, s2[q]) { assert Fits(c, short, pool, q, s[q]); }
    FillOne(s2, 0, p, s[p].value);
    assert s2[p := s[p]] == s;
  }

  class PartiallyDownloadedBlock {
    var headerNull: bool
    var available: Slots
    var prefilledCount: nat
    var poolCount: int

    constructor ()
      ensures headerNull && available == [] && poolCount == 0
    {
      headerNull, available, prefilledCount, poolCount := true, [], 0, 0;
    }

    /** Puts every prefilled transaction in its slot, or finds the message malformed. */
    method Prefill(c: Compact) returns (ok: bool)
      requires available == []
      modifies this
      ensures ok <==> PrefillsOk(c)
      ensures ok ==> available == Placed(c, |c.prefilled|)
      ensures headerNull == old(headerNull) && poolCount == old(poolCount)
    {
      available := seq(c.TxCount(), _ => None);
      var last := -1;
      for i := 0 to |c.prefilled|
        invariant forall k :: 0 <= k < i ==> PrefillOk(c, k)
        invariant last == if i == 0 then -1 else Position(c, i - 1)
        invariant available == Placed(c, i)
        invariant headerNull == old(headerNull) && poolCount == old(poolCount)
      {
        if c.prefilled[i].tx == NULL_TX {
          assert !PrefillOk(c, i);
          return false;
        }
        last := last + c.prefilled[i].index + 1;
        if last > 0xffff || last > |c.shortIds| + i {
          assert !PrefillOk(c, i);
          return false;
        }
        available := available[last := Some(c.prefilled[i].tx)];
      }
      ok := true;
    }

    /** Gives each short id the next slot that is not prefilled. `crowded` is the hash table's bucket check. */
    method IndexIds(c: Compact, crowded: nat -> bool) returns (ok: bool, ids: map<nat, nat>)
      requires PrefillsOk(c) && available == Placed(c, |c.prefilled|) && c.TxCount() <= 0x1_0000
      ensures ok ==> IndexOk(c, ids, |c.shortIds|) && (|ids| == |c.shortIds| <==> DistinctIds(c))
      ensures ok <==> Roomy(c, crowded)
    {
      hide SlotOf, Placed, FreeFrom, DistinctUpTo, DistinctIds, Free, Low16, PrefillsOk, IndexOk, Left;
      ids := map[];
      var offset := 0;
      ghost var free := Free(available);
      StartFree(c, available);
      for i := 0 to |c.shortIds|
        invariant i + offset <= |available| && offset >= 0
        invariant |free| == |c.shortIds| && Left(free, i, FreeFrom(available, i + offset))
        invariant IndexOk(c, ids, i) && |ids| <= i && (|ids| == i <==> DistinctUpTo(c, i))
        invariant forall k :: 0 <= k < i ==> !crowded(k)
      {
        LeftSome(free, i, FreeFrom(available, i + offset));
        var p := NextFree(i + offset);
        Fits16(p - i);
        Fits16(p);
        offset := Low16(p - i);
        SlotIs(c, i, p, free, FreeFrom(available, p + 1));
        IndexNext(c, ids, i, p);
        ids := ids[c.shortIds[i] := Low16(i + offset)];
        if crowded(i) { return false, ids; }
      }
      DistinctAll(c);
      ok := true;
    }

    /** Looks through the pool for the block's short ids; a second find for a slot empties it again. */
    method ScanPool(c: Compact, short: ShortId, pool: seq<TxRef>, ids: map<nat, nat>) returns (have: seq<bool>)
      requires Indexed(c, ids) && available == Placed(c, |c.prefilled|) && poolCount == 0
      modifies this
      ensures headerNull == old(headerNull) && AllFit(c, short, Elements(pool), available)
      ensures Counted(c, available, poolCount) && Tracks(c, ids, have, available)
      ensures PoolTaken(short, pool, ids, have, available)
    {
      hide AllFit, Counted, Tracks, Placed, IndexOk, Seen, PoolTaken, OwnSlots, DistinctIds, PrefillsOk;
      have := seq(|available|, _ => false);
      SlotsAreOwn(c, ids);
      PlacedLength(c);
      ScanStart(c, short, Elements(pool), ids, have);
      NothingSeen(short, pool, ids, have, available);
      var n := 0;
      while n < |pool|
        invariant n <= |pool| && headerNull == old(headerNull) && |have| == |available| == c.TxCount()
        invariant AllFit(c, short, Elements(pool), available) && Counted(c, available, poolCount) && Tracks(c, ids, have, available)
        invariant Seen(short, pool, n, ids, have, available)
        decreases |pool| - n
      {
        var t := pool[n];
        ghost var have0, s0 := have, available;
        if short(t) in ids {
          var p := ids[short(t)];
          InRange(c, ids, short(t));
          if !have[p] {
            Take(c, short, Elements(pool), ids, have, available, poolCount, t);
            available := available[p := Some(t)];
            have := have[p := true];
            poolCount := poolCount + 1;
          } else if available[p].Some? {
            Drop(c, short, Elements(pool), ids, have, available, poolCount, short(t));
            available := available[p := None];
            poolCount := poolCount - 1;
          }
        }
        SeenNext(short, pool, n, ids, have0, s0, have, available);
        n := n + 1;
        if poolCount == |ids| { break; }
      }
      if n < |pool| { AllFound(c, short, Elements(pool), ids, available, poolCount); }
      StoppedIsTaken(short, pool, n, ids, have, available);
    }

    /** The same over recent transactions outside the pool; only a different transaction empties a slot. */
    method ScanExtra(c: Compact, short: ShortId, extra: seq<TxRef>, ids: map<nat, nat>, had: seq<bool>, ghost pool: set<TxRef>)
      requires Indexed(c, ids) && AllFit(c, short, pool, available)
      requires Counted(c, available, poolCount) && Tracks(c, ids, had, available)
      modifies this
      ensures headerNull == old(headerNull) && AllFit(c, short, pool + Elements(extra), available)
      ensures Counted(c, available, poolCount)
      ensures ExtraTaken(short, extra, ids, had, old(available), available)
    {
      hide AllFit, Counted, Tracks, Placed, IndexOk, Extended, ExtraTaken, OwnSlots, DistinctIds, PrefillsOk;
      var have := had;
      ghost var all := pool + Elements(extra);
      MorePool(c, short, pool, all, available);
      SlotCount(c, short, all, ids, have, available);
      SlotsAreOwn(c, ids);
      Untracked(c, ids, had, available);
      NothingExtended(short, extra, ids, had, available);
      var n := 0;
      while n < |extra|
        invariant n <= |extra| && headerNull == old(headerNull) && |have| == |available| == c.TxCount()
        invariant AllFit(c, short, all, available) && Counted(c, available, poolCount) && Tracks(c, ids, have, available)
        invariant Extended(short, extra, n, ids, had, old(available), have, available)
        decreases |extra| - n
      {
        var t := extra[n];
        ghost var have0, s0 := have, available;
        if short(t) in ids {
          var p := ids[short(t)];
          InRange(c, ids, short(t));
          if !have[p] {
            Take(c, short, all, ids, have, available, poolCount, t);
            available := available[p := Some(t)];
            have := have[p := true];
            poolCount := poolCount + 1;
          } else if available[p].Some? && available[p].value != t {
            Drop(c, short, all, ids, have, available, poolCount, short(t));
            available := available[p := None];
            poolCount := poolCount - 1;
          }
        }
        ExtendedNext(short, extra, n, ids, had, old(available), have0, s0, have, available);
        n := n + 1;
        if poolCount == |ids| { break; }
      }
      if n < |extra| { AllFound(c, short, all, ids, available, poolCount); }
      StoppedIsExtended(short, extra, n, ids, had, old(available), have, available);
    }

    /** Reads a compact block; `maxTxs` is how many transactions a block can hold. */
    method InitData(c: Compact, short: ShortId, pool: seq<TxRef>, extra: seq<TxRef>, crowded: nat -> bool, maxTxs: nat)
        returns (status: Status)
      requires headerNull && available == [] && poolCount == 0 && (Malformed(c, maxTxs) || c.TxCount() <= 0x1_0000)
      modifies this
      ensures status == Invalid <==> Malformed(c, maxTxs)
      ensures status == Failed <==> !Malformed(c, maxTxs) && !(DistinctIds(c) && Roomy(c, crowded))
      ensures status in {Ok, Invalid, Failed}
      ensures status == Ok ==>
                && DistinctIds(c) && !headerNull && AllFit(c, short, Elements(pool) + Elements(extra), available)
                && Counted(c, available, poolCount)
                && forall i :: 0 <= i < |c.shortIds| ==> Served(short, pool, extra, c.shortIds[i], available[SlotOf(c, i)])
    {
      hide AllFit, Counted, Tracks, Placed, IndexOk, PoolTaken, ExtraTaken, OwnSlots, Served;
      if c.headerNull || (c.shortIds == [] && c.prefilled == []) { return Invalid; }
      if |c.shortIds| + |c.prefilled| > maxTxs { return Invalid; }
      headerNull := false;
      var ok := Prefill(c);
      if !ok { return Invalid; }
      prefilledCount := |c.prefilled|;
      var indexed, ids := IndexIds(c, crowded);
      if !indexed { return Failed; }
      if |ids| != |c.shortIds| { return Failed; }
      var have := ScanPool(c, short, pool, ids);
      ghost var taken := available;
      Untracked(c, ids, have, taken);
      ScanExtra(c, short, extra, ids, have, Elements(pool));
      SlotsMatch(c, short, Elements(pool) + Elements(extra), available);
      SlotsAreOwn(c, ids);
      forall i | 0 <= i < |c.shortIds| ensures Served(short, pool, extra, c.shortIds[i], available[SlotOf(c, i)]) {
        ServedBoth(short, pool, extra, ids, have, taken, available, c.shortIds[i]);
      }
      status := Ok;
    }

    /** The block, when exactly the missing transactions are given; `checks` is the full block check. */
    method FillBlock(missing: seq<TxRef>, checks: seq<TxRef> -> Status) returns (status: Status, vtx: seq<TxRef>)
      requires !headerNull
      modifies this
      ensures status == Ok ==> Fill(old(available), missing) == Some(vtx) && checks(vtx) == Ok
      ensures Fill(old(available), missing).None? ==> status == Invalid
      ensures Fill(old(available), missing).Some? ==> status == checks(Fill(old(available), missing).value)
      ensures Fill(old(available), missing).Some? ==> headerNull && available == []
    {
      vtx := [];
      var used := 0;
      ghost var slots := available;
      assert slots[0..] == slots && missing[0..] == missing;
      PrependNothing(Fill(slots, missing));
      for i := 0 to |available|
        invariant |available| == |slots| && available[i..] == slots[i..] && used <= |missing|
        invariant Prepend(vtx, Fill(slots[i..], missing[used..])) == Fill(slots, missing)
      {
        assert slots[i..][0] == slots[i] && slots[i..][1..] == slots[i + 1..];
        assert available[i] == available[i..][0];
        if available[i].None? {
          if |missing| <= used {
            return Invalid, vtx;
          }
          assert missing[used..][0] == missing[used] && missing[used..][1..] == missing[used + 1..];
          PrependNext(vtx, missing[used], Fill(slots[i + 1..], missing[used + 1..]));
          vtx := vtx + [missing[used]];
          used := used + 1;
        } else {
          PrependNext(vtx, available[i].value, Fill(slots[i + 1..], missing[used..]));
          vtx := vtx + [available[i].value];
          available := available[i := None];
        }
        assert available[i + 1..] == slots[i + 1..];
      }
      headerNull, available := true, [];
      if |missing| != used { return Invalid, vtx; }
      assert missing[used..] == [] && vtx + [] == vtx;
      status := checks(vtx);
    }

    /** The first free slot at or after `from`. */
    method NextFree(from: nat) returns (p: nat)
      requires from <= |available| && FreeFrom(available, from) != []
      ensures from <= p < |available| && available[p].None?
      ensures FreeFrom(available, from) == [p] + FreeFrom(available, p + 1)
    {
      p := from;
      while available[p].Some?
        invariant from <= p < |available| && FreeFrom(available, p) == FreeFrom(available, from)
        decreases |available| - p
      {
        p := p + 1;
      }
    }
  }

  /** Slots are kept in 16 bits. */
  function Low16(n: nat): nat { n % 0x1_0000 }

  lemma Fits16(n: nat)
    requires n < 0x1_0000
    ensures Low16(n) == n
  {}

  /** The exact limit: all slots fit their 16 bits if and only if the block has at most 65536 transactions. */
  lemma SlotsFitIff(c: Compact)
    requires PrefillsOk(c)
    ensures (forall i :: 0 <= i < |c.shortIds| ==> Low16(SlotOf(c, i)) == SlotOf(c, i)) <==> c.TxCount() <= 0x1_0000
  {
    hide Placed;
    var last := c.TxCount() - 1;
    if last >= 0x1_0000 {
      PrefilledLow(c, |c.prefilled|, last);
      var i := SlotFor(c, last);
      assert Low16(SlotOf(c, i)) != SlotOf(c, i);
    }
  }

  /** Prefilled transactions stay below slot 65536. */
  lemma {:induction false} PrefilledLow(c: Compact, n: nat, p: nat)
    requires n <= |c.prefilled| && (forall i :: 0 <= i < n ==> PrefillOk(c, i)) && 0x1_0000 <= p < c.TxCount()
    ensures Placed(c, n)[p].None?
  {
    if n > 0 {
      PrefilledLow(c, n - 1, p);
      assert PrefillOk(c, n - 1);
    }
  }

  lemma StartFree(c: Compact, s: Slots)
    requires PrefillsOk(c) && s == Placed(c, |c.prefilled|)
    ensures |Free(s)| == |c.shortIds| && Left(Free(s), 0, FreeFrom(s, 0))
    ensures DistinctUpTo(c, 0) && IndexOk(c, map[], 0)
  {
    FreeCount(c, |c.prefilled|);
  }

  lemma DistinctAll(c: Compact)
    ensures DistinctUpTo(c, |c.shortIds|) <==> DistinctIds(c)
  {}

  /** Of `free`, all but the first `i` are left. */
  predicate Left(free: seq<nat>, i: nat, rest: seq<nat>) { i <= |free| && free[i..] == rest }

  lemma LeftSome(free: seq<nat>, i: nat, rest: seq<nat>)
    requires Left(free, i, rest) && i < |free|
    ensures rest != []
  {}

  lemma SlotIs(c: Compact, i: nat, p: nat, free: seq<nat>, rest: seq<nat>)
    requires PrefillsOk(c) && i < |c.shortIds| == |free| && free == Free(Placed(c, |c.prefilled|))
    requires Left(free, i, [p] + rest)
    ensures p == SlotOf(c, i) && Left(free, i + 1, rest)
  {
    assert free[i] == p;
  }

  lemma IndexNext(c: Compact, ids: map<nat, nat>, i: nat, p: nat)
    requires PrefillsOk(c) && i < |c.shortIds| && p == SlotOf(c, i)
    requires IndexOk(c, ids, i) && |ids| <= i && (|ids| == i <==> DistinctUpTo(c, i))
    ensures var next := ids[c.shortIds[i] := p];
            IndexOk(c, next, i + 1) && |next| <= i + 1 && (|next| == i + 1 <==> DistinctUpTo(c, i + 1))
  {
    hide SlotOf, Placed, PrefillsOk, DistinctUpTo;
    var x := c.shortIds[i];
    var next := ids[x := p];
    assert next.Keys == ids.Keys + {x};
    KnownIff(c, ids, i);
    forall y | y in next ensures Leads(c, y, next[y], i + 1) {
      if y != x { assert Leads(c, y, ids[y], i); }
    }
  }

  lemma KnownIff(c: Compact, ids: map<nat, nat>, i: nat)
    requires PrefillsOk(c) && i < |c.shortIds| && IndexOk(c, ids, i)
    ensures c.shortIds[i] in ids <==> exists k :: 0 <= k < i && c.shortIds[k] == c.shortIds[i]
    ensures DistinctUpTo(c, i + 1) <==> DistinctUpTo(c, i) && c.shortIds[i] !in ids
  {
    hide SlotOf, Placed, PrefillsOk;
    var x := c.shortIds[i];
    if x in ids { assert Leads(c, x, ids[x], i); }
  }

  /** A block sent in compact form and completed with what the receiver lacks arrives as it was. */
  method Deliver(vtx: seq<TxRef>, short: ShortId, pool: seq<TxRef>, extra: seq<TxRef>, crowded: nat -> bool, maxTxs: nat,
                 checks: seq<TxRef> -> Status)
      returns (read: Status, filled: Status, got: seq<TxRef>)
    requires vtx != [] && vtx[0] != NULL_TX && |vtx| <= 0x1_0000
    requires NoFalseMatch(Send(short, vtx), short, vtx, Elements(pool) + Elements(extra))
    ensures read == Ok <==> |vtx| <= maxTxs && DistinctIds(Send(short, vtx)) && Roomy(Send(short, vtx), crowded)
    ensures read == Ok ==> filled == checks(vtx) && (filled == Ok ==> got == vtx)
  {
    hide AllFit, Describes, NoFalseMatch, Fill, Missing;
    var c := Send(short, vtx);
    SendDescribes(short, vtx);
    var receiver := new PartiallyDownloadedBlock();
    read := receiver.InitData(c, short, pool, extra, crowded, maxTxs);
    if read != Ok { return read, Invalid, []; }
    SlotsMatch(c, short, Elements(pool) + Elements(extra), receiver.available);
    Rebuilds(c, short, vtx, Elements(pool) + Elements(extra), receiver.available);
    filled, got := receiver.FillBlock(Missing(receiver.available, vtx), checks);
  }

  lemma SlotsMatch(c: Compact, short: ShortId, pool: set<TxRef>, s: Slots)
    requires PrefillsOk(c) && AllFit(c, short, pool, s)
    ensures |s| == c.TxCount()
  {}
}
