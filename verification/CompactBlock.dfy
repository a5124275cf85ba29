/** Rebuilding a block from its compact form: prefilled transactions, short ids, the pool, and what is asked for. */
module CompactBlock {
  import opened Prelude

  /** A transaction stands for its hash; 0 is the null transaction. */
  type TxRef = nat
  const NULL_TX: TxRef := 0

  /** `index` counts from the previous prefilled transaction. */
  datatype Prefilled = Prefilled(index: nat, tx: TxRef)

  datatype Compact = Compact(headerNull: bool, shortIds: seq<nat>, prefilled: seq<Prefilled>) {
    function TxCount(): nat { |shortIds| + |prefilled| }
  }

  type Slots = seq<Option<TxRef>>

  datatype Status = Ok | Invalid | Failed | CheckFailed

  // ---------------------------------------------------------------- prefilled transactions

  /** The slot of the `i`th prefilled transaction. */
  function Position(c: Compact, i: nat): nat
    requires i < |c.prefilled|
  {
    if i == 0 then c.prefilled[0].index else Position(c, i - 1) + c.prefilled[i].index + 1
  }

  predicate PrefillOk(c: Compact, i: nat)
    requires i < |c.prefilled|
  {
    c.prefilled[i].tx != NULL_TX && Position(c, i) <= 0xffff && Position(c, i) <= |c.shortIds| + i
  }

  predicate PrefillsOk(c: Compact) { forall i :: 0 <= i < |c.prefilled| ==> PrefillOk(c, i) }

  /** The slots after the first `n` prefilled transactions. */
  function Placed(c: Compact, n: nat): (s: Slots)
    requires n <= |c.prefilled| && forall i :: 0 <= i < n ==> PrefillOk(c, i)
    ensures |s| == c.TxCount()
  {
    if n == 0 then seq(c.TxCount(), _ => None)
    else
      assert PrefillOk(c, n - 1);
      Placed(c, n - 1)[Position(c, n - 1) := Some(c.prefilled[n - 1].tx)]
  }

  lemma {:induction false} PositionsAscend(c: Compact, i: nat, j: nat)
    requires i < j < |c.prefilled|
    ensures Position(c, i) < Position(c, j)
    decreases j
  {
    if i < j - 1 { PositionsAscend(c, i, j - 1); }
  }

  /** Each prefilled transaction stays in its slot, and every other slot is free. */
  lemma {:induction false} PlacedAt(c: Compact, n: nat, i: nat)
    requires i < n <= |c.prefilled| && forall i :: 0 <= i < n ==> PrefillOk(c, i)
    ensures PrefillOk(c, i) && Placed(c, n)[Position(c, i)] == Some(c.prefilled[i].tx)
  {
    assert PrefillOk(c, i);
    if i < n - 1 {
      PlacedAt(c, n - 1, i);
      PositionsAscend(c, i, n - 1);
      assert PrefillOk(c, n - 1);
    }
  }

  lemma {:induction false} PlacedFree(c: Compact, n: nat, p: nat)
    requires n <= |c.prefilled| && (forall i :: 0 <= i < n ==> PrefillOk(c, i)) && p < c.TxCount()
    requires forall i :: 0 <= i < n ==> Position(c, i) != p
    ensures Placed(c, n)[p] == None
  {
    if n > 0 {
      PlacedFree(c, n - 1, p);
      assert PrefillOk(c, n - 1);
    }
  }

  // ---------------------------------------------------------------- free slots

  /** The free slots from `from` on, in order. */
  function FreeFrom(s: Slots, from: nat): seq<nat>
    requires from <= |s|
    decreases |s| - from
  {
    if from == |s| then [] else (if s[from].None? then [from] else []) + FreeFrom(s, from + 1)
  }

  function Free(s: Slots): seq<nat> { FreeFrom(s, 0) }

  lemma {:induction false} FreeFromMember(s: Slots, from: nat, p: nat)
    requires from <= |s|
    ensures p in FreeFrom(s, from) <==> from <= p < |s| && s[p].None?
    decreases |s| - from
  {
    if from < |s| { FreeFromMember(s, from + 1, p); }
  }

  lemma {:induction false} FreeFromAscends(s: Slots, from: nat, i: nat, j: nat)
    requires from <= |s| && i < j < |FreeFrom(s, from)|
    ensures FreeFrom(s, from)[i] < FreeFrom(s, from)[j]
    decreases |s| - from
  {
    var rest := FreeFrom(s, from + 1);
    if s[from].None? {
      if i == 0 {
        assert rest[j - 1] in rest;
        FreeFromMember(s, from + 1, rest[j - 1]);
      } else {
        FreeFromAscends(s, from + 1, i - 1, j - 1);
      }
    } else {
      FreeFromAscends(s, from + 1, i, j);
    }
  }

  lemma {:induction false} FillOne(s: Slots, from: nat, p: nat, t: TxRef)
    requires from <= |s| && p < |s| && s[p].None?
    ensures |FreeFrom(s[p := Some(t)], from)| == |FreeFrom(s, from)| - (if p >= from then 1 else 0)
    decreases |s| - from
  {
    if from < |s| { FillOne(s, from + 1, p, t); }
  }

  lemma {:induction false} AllFree(n: nat, from: nat)
    requires from <= n
    ensures |FreeFrom(seq(n, _ => None), from)| == n - from
    decreases n - from
  {
    if from < n { AllFree(n, from + 1); }
  }

  /** There are as many free slots as short ids, so each finds one in bounds. */
  lemma {:induction false} FreeCount(c: Compact, n: nat)
    requires n <= |c.prefilled| && forall i :: 0 <= i < n ==> PrefillOk(c, i)
    ensures |Free(Placed(c, n))| == c.TxCount() - n
  {
    if n == 0 {
      AllFree(c.TxCount(), 0);
    } else {
      FreeCount(c, n - 1);
      var p := Position(c, n - 1);
      assert PrefillOk(c, n - 1);
      forall i | 0 <= i < n - 1 ensures Position(c, i) != p { PositionsAscend(c, i, n - 1); }
      PlacedFree(c, n - 1, p);
      FillOne(Placed(c, n - 1), 0, p, c.prefilled[n - 1].tx);
    }
  }

  /** The slot of the `i`th short id: the `i`th that is not prefilled. */
  function SlotOf(c: Compact, i: nat): (p: nat)
    requires PrefillsOk(c) && i < |c.shortIds|
    ensures p < c.TxCount() && Placed(c, |c.prefilled|)[p].None?
  {
    var free := Free(Placed(c, |c.prefilled|));
    FreeCount(c, |c.prefilled|);
    assert free[i] in free;
    FreeFromMember(Placed(c, |c.prefilled|), 0, free[i]);
    free[i]
  }

  lemma SlotsAscend(c: Compact, i: nat, j: nat)
    requires PrefillsOk(c) && i < j < |c.shortIds|
    ensures SlotOf(c, i) < SlotOf(c, j)
  {
    FreeCount(c, |c.prefilled|);
    FreeFromAscends(Placed(c, |c.prefilled|), 0, i, j);
  }

  /** Every slot that is not prefilled belongs to a short id. */
  lemma SlotFor(c: Compact, p: nat) returns (i: nat)
    requires PrefillsOk(c) && p < c.TxCount() && Placed(c, |c.prefilled|)[p].None?
    ensures i < |c.shortIds| && SlotOf(c, i) == p
  {
    var free := Free(Placed(c, |c.prefilled|));
    FreeCount(c, |c.prefilled|);
    FreeFromMember(Placed(c, |c.prefilled|), 0, p);
    i :| 0 <= i < |free| && free[i] == p;
  }

  // ---------------------------------------------------------------- what a slot may hold

  /** The short id of a transaction under the block's key. */
  type ShortId = TxRef -> nat

  /** `t` is a transaction at hand with the short id that belongs in slot `p`. */
  predicate Matches(c: Compact, short: ShortId, pool: set<TxRef>, p: nat, t: TxRef)
    requires PrefillsOk(c)
  {
    t in pool && exists i :: 0 <= i < |c.shortIds| && SlotOf(c, i) == p && short(t) == c.shortIds[i]
  }

  /** A slot holds its prefilled transaction, or nothing, or a match. */
  predicate Fits(c: Compact, short: ShortId, pool: set<TxRef>, p: nat, x: Option<TxRef>)
    requires PrefillsOk(c) && p < c.TxCount()
  {
    var placed := Placed(c, |c.prefilled|)[p];
    if placed.Some? then x == placed else x.Some? ==> Matches(c, short, pool, p, x.value)
  }

  predicate AllFit(c: Compact, short: ShortId, pool: set<TxRef>, s: Slots)
    requires PrefillsOk(c)
  {
    |s| == c.TxCount() && forall p :: 0 <= p < |s| ==> Fits(c, short, pool, p, s[p])
  }

  /** `c` is a compact form of the list `vtx`. */
  predicate Describes(c: Compact, short: ShortId, vtx: seq<TxRef>) {
    && PrefillsOk(c) && |vtx| == c.TxCount()
    && (forall i :: 0 <= i < |c.prefilled| ==> PrefillOk(c, i) && vtx[Position(c, i)] == c.prefilled[i].tx)
    && (forall i :: 0 <= i < |c.shortIds| ==> short(vtx[SlotOf(c, i)]) == c.shortIds[i])
  }

  /** Whatever at hand has a short id of the block is the block's transaction. */
  predicate NoFalseMatch(c: Compact, short: ShortId, vtx: seq<TxRef>, pool: set<TxRef>) {
    PrefillsOk(c) && |vtx| == c.TxCount() &&
    forall i, t :: 0 <= i < |c.shortIds| && t in pool && short(t) == c.shortIds[i] ==> t == vtx[SlotOf(c, i)]
  }

  /** The compact form that a sender makes: the first transaction in full, short ids for the rest. */
  function Send(short: ShortId, vtx: seq<TxRef>): Compact
    requires vtx != []
  {
    Compact(false, seq(|vtx| - 1, i requires 0 <= i < |vtx| - 1 => short(vtx[i + 1])), [Prefilled(0, vtx[0])])
  }

  lemma {:induction false} FreeAfterFirst(s: Slots, from: nat, i: nat)
    requires 1 <= from <= |s| && (forall p :: 1 <= p < |s| ==> s[p].None?) && i < |s| - from
    ensures |FreeFrom(s, from)| == |s| - from && FreeFrom(s, from)[i] == from + i
    decreases |s| - from
  {
    if from + 1 < |s| { FreeAfterFirst(s, from + 1, if i == 0 then 0 else i - 1); }
  }

  lemma SendDescribes(short: ShortId, vtx: seq<TxRef>)
    requires vtx != [] && vtx[0] != NULL_TX
    ensures Describes(Send(short, vtx), short, vtx)
  {
    var c := Send(short, vtx);
    assert PrefillOk(c, 0);
    var s := Placed(c, 1);
    assert s == Placed(c, 0)[0 := Some(vtx[0])];
    forall i | 0 <= i < |c.shortIds| ensures SlotOf(c, i) == i + 1 {
      FreeAfterFirst(s, 1, i);
      assert Free(s) == FreeFrom(s, 1);
    }
  }

  // ---------------------------------------------------------------- filling

  function Fill(s: Slots, missing: seq<TxRef>): Option<seq<TxRef>> {
    if s == [] then (if missing == [] then Some([]) else None)
    else if s[0].Some? then Cons(s[0].value, Fill(s[1..], missing))
    else if missing == [] then None
    else Cons(missing[0], Fill(s[1..], missing[1..]))
  }

  function Cons(t: TxRef, rest: Option<seq<TxRef>>): Option<seq<TxRef>> {
    match rest
    case None => None
    case Some(ts) => Some([t] + ts)
  }

  /** The transactions of `vtx` whose slots are free, in order: what is asked for and sent. */
  function Missing(s: Slots, vtx: seq<TxRef>): seq<TxRef>
    requires |s| == |vtx|
  {
    if s == [] then [] else (if s[0].None? then [vtx[0]] else []) + Missing(s[1..], vtx[1..])
  }

  /** The list comes out exactly when what the slots hold is the list's own. */
  lemma {:induction false} FillMissing(s: Slots, vtx: seq<TxRef>)
    requires |s| == |vtx|
    ensures Fill(s, Missing(s, vtx)) == Some(vtx) <==> forall p :: 0 <= p < |s| && s[p].Some? ==> s[p].value == vtx[p]
    ensures Fill(s, Missing(s, vtx)).Some?
  {
    if s != [] {
      FillMissing(s[1..], vtx[1..]);
      var rest := Missing(s[1..], vtx[1..]);
      if s[0].None? { assert Missing(s, vtx)[1..] == rest; } else { assert Missing(s, vtx) == rest; }
      assert vtx == [vtx[0]] + vtx[1..];
      var out := Fill(s, Missing(s, vtx)).value;
      assert out[1..] == Fill(s[1..], rest).value;
      assert forall p :: 0 < p < |s| ==> s[p] == s[1..][p - 1] && vtx[p] == vtx[1..][p - 1];
      assert forall p :: 0 <= p < |s| - 1 ==> s[1..][p] == s[p + 1] && vtx[1..][p] == vtx[p + 1];
    }
  }

  function FreeTotal(s: Slots): nat { if s == [] then 0 else (if s[0].None? then 1 else 0) + FreeTotal(s[1..]) }

  /** Exactly as many transactions as there are free slots are accepted. */
  lemma {:induction false} FillIff(s: Slots, missing: seq<TxRef>)
    ensures Fill(s, missing).Some? <==> |missing| == FreeTotal(s)
  {
    if s != [] {
      if s[0].Some? { FillIff(s[1..], missing); }
      else if missing != [] { FillIff(s[1..], missing[1..]); }
    }
  }

  lemma PlacedFrom(c: Compact, p: nat) returns (i: nat)
    requires PrefillsOk(c) && p < c.TxCount() && Placed(c, |c.prefilled|)[p].Some?
    ensures i < |c.prefilled| && Position(c, i) == p && Placed(c, |c.prefilled|)[p] == Some(c.prefilled[i].tx)
  {
    if forall k :: 0 <= k < |c.prefilled| ==> Position(c, k) != p { PlacedFree(c, |c.prefilled|, p); }
    i :| 0 <= i < |c.prefilled| && Position(c, i) == p;
    PlacedAt(c, |c.prefilled|, i);
  }

  /** With no false match, the free slots' transactions complete the slots to the sender's list, exactly. */
  lemma Rebuilds(c: Compact, short: ShortId, vtx: seq<TxRef>, pool: set<TxRef>, s: Slots)
    requires Describes(c, short, vtx) && NoFalseMatch(c, short, vtx, pool) && AllFit(c, short, pool, s)
    ensures Fill(s, Missing(s, vtx)) == Some(vtx)
  {
    forall p | 0 <= p < |s| && s[p].Some? ensures s[p].value == vtx[p] {
      assert Fits(c, short, pool, p, s[p]);
      if Placed(c, |c.prefilled|)[p].Some? {
        var i := PlacedFrom(c, p);
      } else {
        var i :| 0 <= i < |c.shortIds| && SlotOf(c, i) == p && short(s[p].value) == c.shortIds[i];
      }
    }
    FillMissing(s, vtx);
  }
}
