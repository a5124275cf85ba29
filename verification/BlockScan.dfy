/** Which transactions at hand end up in the slots of a compact block. */
module BlockScan {
  import opened Prelude
  import opened CompactBlock

  /** Each short id leads to a slot of its own. */
  predicate OwnSlots(ids: map<nat, nat>, len: nat) {
    && (forall x :: x in ids ==> ids[x] < len)
    && forall x, y :: x in ids && y in ids && x != y ==> ids[x] != ids[y]
  }

  predicate Found(short: ShortId, ts: seq<TxRef>, n: nat, x: nat)
    requires n <= |ts|
  {
    exists k :: 0 <= k < n && short(ts[k]) == x
  }

  /** Of the first `n` transactions only the `k`th has its short id. */
  predicate Sole(short: ShortId, ts: seq<TxRef>, n: nat, k: int)
    requires n <= |ts|
  {
    0 <= k < n && forall m :: 0 <= m < n && m != k ==> short(ts[m]) != short(ts[k])
  }

  /** All of the first `n` transactions with short id `x` are `t`. */
  predicate AllAre(short: ShortId, ts: seq<TxRef>, n: nat, x: nat, t: TxRef)
    requires n <= |ts|
  {
    forall k :: 0 <= k < n && short(ts[k]) == x ==> ts[k] == t
  }

  // ---------------------------------------------------------------- the pool

  /** Part-way through the pool: what was seen is marked, and what was seen once is in its slot. */
  ghost predicate Seen(short: ShortId, pool: seq<TxRef>, n: nat, ids: map<nat, nat>, have: seq<bool>, s: Slots)
    requires n <= |pool|
  {
    && |have| == |s| && OwnSlots(ids, |s|)
    && (forall x :: x in ids ==> (have[ids[x]] <==> Found(short, pool, n, x)))
    && (forall k :: Sole(short, pool, n, k) && short(pool[k]) in ids ==> s[ids[short(pool[k])]] == Some(pool[k]))
  }

  lemma FoundNext(short: ShortId, ts: seq<TxRef>, n: nat, x: nat)
    requires n < |ts|
    ensures Found(short, ts, n + 1, x) <==> Found(short, ts, n, x) || short(ts[n]) == x
  {
    if short(ts[n]) == x { assert 0 <= n < n + 1; }
  }

  lemma SoleNext(short: ShortId, ts: seq<TxRef>, n: nat, k: int)
    requires n < |ts| && Sole(short, ts, n + 1, k)
    ensures if k == n then !Found(short, ts, n, short(ts[n])) else Sole(short, ts, n, k) && short(ts[k]) != short(ts[n])
  {}

  /** One round: a first find fills its slot, a second one empties it. */
  lemma SeenNext(short: ShortId, pool: seq<TxRef>, n: nat, ids: map<nat, nat>, have: seq<bool>, s: Slots, have2: seq<bool>, s2: Slots)
    requires n < |pool| && Seen(short, pool, n, ids, have, s) && |have2| == |have| && |s2| == |s|
    requires var x := short(pool[n]);
             if x !in ids then have2 == have && s2 == s
             else if !have[ids[x]] then have2 == have[ids[x] := true] && s2 == s[ids[x] := Some(pool[n])]
             else have2 == have && forall p :: 0 <= p < |s| && p != ids[x] ==> s2[p] == s[p]
    ensures Seen(short, pool, n + 1, ids, have2, s2)
  {
    hide Found;
    var x := short(pool[n]);
    forall y | y in ids ensures have2[ids[y]] <==> Found(short, pool, n + 1, y) { FoundNext(short, pool, n, y); }
    forall k | Sole(short, pool, n + 1, k) && short(pool[k]) in ids ensures s2[ids[short(pool[k])]] == Some(pool[k]) {
      SoleNext(short, pool, n, k);
    }
  }

  lemma NothingSeen(short: ShortId, pool: seq<TxRef>, ids: map<nat, nat>, have: seq<bool>, s: Slots)
    requires OwnSlots(ids, |s|) && have == seq(|s|, _ => false)
    ensures Seen(short, pool, 0, ids, have, s)
  {}

  /** After the pool: a transaction that is alone with its short id fills its slot, and a short id that no transaction has
    * is unmarked.
    */
  ghost predicate PoolTaken(short: ShortId, pool: seq<TxRef>, ids: map<nat, nat>, have: seq<bool>, s: Slots) {
    && |have| == |s| && OwnSlots(ids, |s|)
    && (forall x :: x in ids && !Found(short, pool, |pool|, x) ==> !have[ids[x]])
    && (forall k :: Sole(short, pool, |pool|, k) && short(pool[k]) in ids ==> s[ids[short(pool[k])]] == Some(pool[k]))
  }

  /** The scan may stop early once every slot is filled with a match. */
  lemma StoppedIsTaken(short: ShortId, pool: seq<TxRef>, n: nat, ids: map<nat, nat>, have: seq<bool>, s: Slots)
    requires n <= |pool| && Seen(short, pool, n, ids, have, s)
    requires n == |pool| || forall x :: x in ids ==> s[ids[x]].Some? && s[ids[x]].value in pool && short(s[ids[x]].value) == x
    ensures PoolTaken(short, pool, ids, have, s)
  {
    forall x | x in ids && !Found(short, pool, |pool|, x) ensures !have[ids[x]] { assert !Found(short, pool, n, x); }
    forall k | Sole(short, pool, |pool|, k) && short(pool[k]) in ids ensures s[ids[short(pool[k])]] == Some(pool[k]) {
      if n < |pool| {
        var x := short(pool[k]);
        var t := s[ids[x]].value;
        var m :| 0 <= m < |pool| && pool[m] == t;
        assert short(pool[m]) == x;
      }
    }
  }

  // ---------------------------------------------------------------- recent transactions outside the pool

  /** One short id part-way through the extra transactions: its mark and slot before, and now. */
  ghost predicate ExtendedFor(short: ShortId, extra: seq<TxRef>, n: nat, x: nat, had: bool, was: Option<TxRef>, have: bool, now: Option<TxRef>)
    requires n <= |extra|
  {
    && (!Found(short, extra, n, x) ==> have == had && now == was)
    && (forall t: TxRef :: had && was == Some(t) && AllAre(short, extra, n, x, t) ==> have && now == Some(t))
    && (forall t: TxRef :: !had && Found(short, extra, n, x) && AllAre(short, extra, n, x, t) ==> have && now == Some(t))
  }

  lemma ExtendedForNext(short: ShortId, extra: seq<TxRef>, n: nat, x: nat, had: bool, was: Option<TxRef>, have: bool, now: Option<TxRef>,
                        have2: bool, now2: Option<TxRef>)
    requires n < |extra| && ExtendedFor(short, extra, n, x, had, was, have, now)
    requires if short(extra[n]) != x then have2 == have && now2 == now
             else if !have then have2 && now2 == Some(extra[n])
             else have2 && now2 == if now.Some? && now.value != extra[n] then None else now
    ensures ExtendedFor(short, extra, n + 1, x, had, was, have2, now2)
  {
    FoundNext(short, extra, n, x);
    var next := n + 1;
    forall t: TxRef | AllAre(short, extra, next, x, t)
      ensures (had && was == Some(t)) || (!had && Found(short, extra, next, x)) ==> have2 && now2 == Some(t)
    {
      AllAreNext(short, extra, n, x, t);
      if Found(short, extra, n, x) && !had { assert have && now == Some(t); }
    }
  }

  /** Part-way through the extra transactions, starting from marks `had` and slots `s0`. */
  ghost predicate Extended(short: ShortId, extra: seq<TxRef>, n: nat, ids: map<nat, nat>, had: seq<bool>, s0: Slots, have: seq<bool>, s: Slots)
    requires n <= |extra|
  {
    && |had| == |s0| == |have| == |s| && OwnSlots(ids, |s|)
    && forall x :: x in ids ==> ExtendedFor(short, extra, n, x, had[ids[x]], s0[ids[x]], have[ids[x]], s[ids[x]])
  }

  lemma NothingExtended(short: ShortId, extra: seq<TxRef>, ids: map<nat, nat>, had: seq<bool>, s0: Slots)
    requires |had| == |s0| && OwnSlots(ids, |s0|)
    ensures Extended(short, extra, 0, ids, had, s0, had, s0)
  {}

  lemma AllAreNext(short: ShortId, ts: seq<TxRef>, n: nat, x: nat, t: TxRef)
    requires n < |ts|
    ensures AllAre(short, ts, n + 1, x, t) <==> AllAre(short, ts, n, x, t) && (short(ts[n]) == x ==> ts[n] == t)
  {
    if AllAre(short, ts, n + 1, x, t) { assert short(ts[n]) == x ==> ts[n] == t; }
  }

  /** One round: a first find fills its slot, and another transaction empties it. */
  lemma ExtendedNext(short: ShortId, extra: seq<TxRef>, n: nat, ids: map<nat, nat>, had: seq<bool>, s0: Slots, have: seq<bool>, s: Slots,
                     have2: seq<bool>, s2: Slots)
    requires n < |extra| && Extended(short, extra, n, ids, had, s0, have, s) && |have2| == |have| && |s2| == |s|
    requires var x := short(extra[n]);
             if x !in ids then have2 == have && s2 == s
             else if !have[ids[x]] then have2 == have[ids[x] := true] && s2 == s[ids[x] := Some(extra[n])]
             else have2 == have && s2 == if s[ids[x]].Some? && s[ids[x]].value != extra[n] then s[ids[x] := None] else s
    ensures Extended(short, extra, n + 1, ids, had, s0, have2, s2)
  {
    hide ExtendedFor;
    forall x | x in ids ensures ExtendedFor(short, extra, n + 1, x, had[ids[x]], s0[ids[x]], have2[ids[x]], s2[ids[x]]) {
      ExtendedForNext(short, extra, n, x, had[ids[x]], s0[ids[x]], have[ids[x]], s[ids[x]], have2[ids[x]], s2[ids[x]]);
    }
  }

  /** After the extra transactions: a slot keeps its pool transaction unless a different one turns up, and a slot that the
    * pool left unmarked is filled if all that turn up for it are the same.
    */
  ghost predicate ExtraTaken(short: ShortId, extra: seq<TxRef>, ids: map<nat, nat>, had: seq<bool>, s0: Slots, s: Slots) {
    && |had| == |s0| == |s| && OwnSlots(ids, |s|)
    && (forall x, t: TxRef :: x in ids && had[ids[x]] && s0[ids[x]] == Some(t) && AllAre(short, extra, |extra|, x, t) ==> s[ids[x]] == Some(t))
    && (forall x, t: TxRef :: x in ids && !had[ids[x]] && Found(short, extra, |extra|, x) && AllAre(short, extra, |extra|, x, t) ==>
          s[ids[x]] == Some(t))
  }

  lemma StoppedIsExtended(short: ShortId, extra: seq<TxRef>, n: nat, ids: map<nat, nat>, had: seq<bool>, s0: Slots, have: seq<bool>, s: Slots)
    requires n <= |extra| && Extended(short, extra, n, ids, had, s0, have, s)
    requires forall x :: x in ids && !had[ids[x]] ==> s0[ids[x]].None?
    requires n == |extra| || forall x :: x in ids ==> s[ids[x]].Some?
    ensures ExtraTaken(short, extra, ids, had, s0, s)
  {
    forall x, t: TxRef | x in ids && AllAre(short, extra, |extra|, x, t)
      ensures AllAre(short, extra, n, x, t) && ExtendedFor(short, extra, n, x, had[ids[x]], s0[ids[x]], have[ids[x]], s[ids[x]])
    {}
    forall x | x in ids && !had[ids[x]] && Found(short, extra, |extra|, x) ensures Found(short, extra, n, x) {
      assert ExtendedFor(short, extra, n, x, had[ids[x]], s0[ids[x]], have[ids[x]], s[ids[x]]);
    }
  }

  /** What reading a compact block does for one short id `x` with slot `p`. */
  ghost predicate Served(short: ShortId, pool: seq<TxRef>, extra: seq<TxRef>, x: nat, slot: Option<TxRef>) {
    && (forall k :: Sole(short, pool, |pool|, k) && short(pool[k]) == x && AllAre(short, extra, |extra|, x, pool[k]) ==>
          slot == Some(pool[k]))
    && (forall t: TxRef :: !Found(short, pool, |pool|, x) && Found(short, extra, |extra|, x) && AllAre(short, extra, |extra|, x, t) ==>
          slot == Some(t))
  }

  lemma ServedBoth(short: ShortId, pool: seq<TxRef>, extra: seq<TxRef>, ids: map<nat, nat>, had: seq<bool>, s0: Slots, s: Slots, x: nat)
    requires PoolTaken(short, pool, ids, had, s0) && ExtraTaken(short, extra, ids, had, s0, s) && x in ids
    requires forall y :: y in ids && !had[ids[y]] ==> s0[ids[y]].None?
    ensures Served(short, pool, extra, x, s[ids[x]])
  {
    forall k | Sole(short, pool, |pool|, k) && short(pool[k]) == x && AllAre(short, extra, |extra|, x, pool[k])
      ensures s[ids[x]] == Some(pool[k])
    {
      assert s0[ids[x]] == Some(pool[k]);
    }
  }
}
