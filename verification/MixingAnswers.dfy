/** What the mixing server answers, exactly: who may join, which submissions are taken, what a timeout does, who is charged. */
module MixingAnswers {
  import opened Prelude
  import opened Mixing
  import opened MixingRun

  // ---------------------------------------------------------------- joining

  /** The session is open to this user: a new one, or one in its queue for the same denominations. */
  predicate OpenTo(s: Session, j: Join) {
    !Ready(s) && if s.id == 0 then s.state == Idle else s.state == Queue && j.denom == s.denom
  }

  /** A user joins if and only if the session is open to it and its message is in order; nothing changes otherwise. */
  lemma WelcomeIff(cfg: Config, s: Session, j: Join)
    requires cfg.Ok() && Inv(cfg, s)
    ensures var (t, r) := Accept(cfg, s, j);
            && (r == Welcome <==> OpenTo(s, j) && !j.refused && DenomAccepted(j.denom) && j.collateralOk)
            && (r != Welcome ==> t == s)
            && (r == Welcome ==> t.state == Queue && t.denom == j.denom && t.collaterals == s.collaterals + [j.collateral]
                                 && t.entries == s.entries && t.final == s.final)
            && (r == Welcome && s.state == Queue ==> t == s.(collaterals := t.collaterals))
            && (r == Welcome && s.state == Idle ==> 1 <= t.id <= 999999 && cfg.minPool <= t.maxParticipants <= cfg.maxPool)
  {
    var room := cfg.maxPool - cfg.minPool + 1;
    assert 0 <= j.rndMax % room < room;
    hide EntriesOk, Merges;
  }

  /** The draw can give a new session every number of participants and every id that the limits allow. */
  lemma EveryPoolSize(cfg: Config, j: Join, size: int, id: int)
    requires cfg.Ok() && cfg.minPool <= size <= cfg.maxPool && 1 <= id <= 999999
    requires !j.refused && DenomAccepted(j.denom) && j.collateralOk
    ensures var t := Accept(cfg, NULL_SESSION, j.(rndId := id - 1, rndMax := size - cfg.minPool)).0;
            t.maxParticipants == size && t.id == id
  {}

  // ---------------------------------------------------------------- submitting

  /** An entry is taken if and only if it passes every check, in whatever order they come. */
  lemma AddedIff(cfg: Config, s: Session, m: Submission)
    ensures SubmitReply(cfg, s, m) == Added <==>
              && Ready(s) && |s.entries| < s.maxParticipants
              && |m.ins| <= 9 && |m.outs| <= 9
              && (forall i :: 0 <= i < |m.outs| ==> IsP2PKH(m.outs[i].script))
              && Mask(m.outs) != 0 && (forall k :: 0 <= k < |s.entries| ==> Mask(s.entries[k].outs) == Mask(m.outs))
              && (forall i :: 0 <= i < |m.ins| ==> m.available(m.ins[i].prevout) && m.ins[i].prevout != NULL_OUTPOINT)
              && SumIn(cfg, Bares(m.ins)) == SumOut(m.outs) && m.collateralOk
              && (forall k :: 0 <= k < |s.entries| ==> !Shares(EntryOf(m), s.entries[k]))
  {
    hide Mask, IsP2PKH, SumIn, SumOut, Shares, EntryOf, Ready;
    ScriptsOk(m.outs);
  }

  /** Each entry of a session was taken with all its coins available and its collateral in order. */
  ghost predicate Backed(evs: seq<Event>, e: Entry) {
    exists i :: 0 <= i < |evs| && BackedAt(evs[i], e)
  }

  predicate BackedAt(ev: Event, e: Entry) {
    && ev.Submits? && ev.submission.collateralOk && SameEntry(EntryOf(ev.submission), e)
    && forall i :: 0 <= i < |ev.submission.ins| ==> ev.submission.available(ev.submission.ins[i].prevout)
  }

  /** What a broadcast spends was unspent when it was submitted, and every participant had put up a collateral. */
  lemma BroadcastIsBacked(cfg: Config, evs: seq<Event>, i: nat, k: nat)
    requires cfg.Ok() && i < |Run(cfg, evs).1| && k < |Run(cfg, evs).1[i].entries|
    ensures Backed(evs, Run(cfg, evs).1[i].entries[k])
  {
    hide Run, Sound, FullySigned, SubmitReply, EntryOf, SameEntry;
    RunIsSound(cfg, evs);
    var e := Run(cfg, evs).1[i].entries[k];
    assert Submitted(cfg, evs, e);
    var n :| 0 <= n < |evs| && SubmittedAt(cfg, evs, n, e);
    AddedIff(cfg, Run(cfg, evs[..n]).0, evs[n].submission);
    assert BackedAt(evs[n], e);
  }

  // ---------------------------------------------------------------- timeouts

  /** The session has participants enough to go on without the others. */
  predicate CanGoOn(cfg: Config, s: Session) {
    (s.state == Queue && |s.collaterals| >= cfg.minPool) || (s.state == Accepting && |s.entries| >= cfg.minPool)
  }

  /** A session that has timed out is reset if and only if too few participants are left; otherwise it goes on with them,
    * and a pool that was accepting entries is closed at once.
    */
  lemma TimeoutIff(cfg: Config, s: Session)
    requires cfg.Ok() && Inv(cfg, s)
    ensures CheckTimeout(cfg, s, false) == (s, None) && CheckTimeout(cfg, s, true).1.None?
    ensures var t := CheckTimeout(cfg, s, true).0;
            && (t == NULL_SESSION <==> !CanGoOn(cfg, s))
            && (CanGoOn(cfg, s) ==> t.id == s.id && t.denom == s.denom && t.entries == s.entries && t.collaterals == s.collaterals)
            && (CanGoOn(cfg, s) && s.state == Queue ==> t.state == Queue && Ready(t) && t.maxParticipants == |s.collaterals|)
            && (CanGoOn(cfg, s) && s.state == Accepting ==> t.state == Signing && t.maxParticipants == |s.entries| && Merges(t.final, s.entries))
  {
    hide EntriesOk, Merges, FinalTx;
    FinalMerges(s.entries);
  }

  /** Left alone, every session ends: at most a timeout in each of its stages. */
  lemma TimeoutsEnd(cfg: Config, s: Session)
    requires cfg.Ok() && Inv(cfg, s)
    ensures var a := Step(cfg, s, Timeout(true)).0;
            var b := Step(cfg, a, Completes).0;
            var c := Step(cfg, b, Timeout(true)).0;
            Step(cfg, c, Timeout(true)).0 == NULL_SESSION
  {
    hide EntriesOk, Merges, FinalTx;
    StepKeeps(cfg, s, Timeout(true));
    var a := Step(cfg, s, Timeout(true)).0;
    StepKeeps(cfg, a, Completes);
    var b := Step(cfg, a, Completes).0;
    StepKeeps(cfg, b, Timeout(true));
    var c := Step(cfg, b, Timeout(true)).0;
    TimeoutIff(cfg, s);
    TimeoutIff(cfg, b);
    TimeoutIff(cfg, c);
  }

  /** When everyone has gone a session with entries ends; without entries there is nobody to wait for. */
  lemma DisconnectsEnd(cfg: Config, s: Session)
    requires cfg.Ok()
    ensures Step(cfg, s, Disconnects).1.None?
    ensures s.entries != [] ==> Step(cfg, s, Disconnects).0 == NULL_SESSION
    ensures s.entries == [] ==> Step(cfg, s, Disconnects).0 == s
  {}

  // ---------------------------------------------------------------- charging

  /** Places in the queue whose user has not submitted. */
  function SilentPlaces(collaterals: seq<int>, es: seq<Entry>): set<nat> {
    set n: nat | n < |collaterals| && forall k :: 0 <= k < |es| ==> es[k].collateral != collaterals[n]
  }

  /** Inputs without a signature, by entry and place. */
  function UnsignedPlaces(es: seq<Entry>): set<(nat, nat)> {
    set k: nat, i: nat | k < |es| && i < |es[k].ins| && !es[k].ins[i].signed :: (k, i)
  }

  lemma {:induction false} SilentAppend(a: seq<int>, x: int, es: seq<Entry>)
    ensures Silent(a + [x], es) == Silent(a, es) + Silent([x], es)
  {
    if a == [] {
      assert a + [x] == [x];
    } else {
      SilentAppend(a[1..], x, es);
      assert (a + [x])[0] == a[0] && (a + [x])[1..] == a[1..] + [x];
    }
  }

  lemma {:induction false} SilentCount(collaterals: seq<int>, es: seq<Entry>)
    ensures |Silent(collaterals, es)| == |SilentPlaces(collaterals, es)|
  {
    if collaterals == [] {
      assert SilentPlaces(collaterals, es) == {};
    } else {
      var n := |collaterals| - 1;
      var before, x := collaterals[..n], collaterals[n];
      SilentCount(before, es);
      SilentAppend(before, x, es);
      assert before + [x] == collaterals && [x][1..] == [];
      assert SilentPlaces(collaterals, es) == SilentPlaces(before, es) + if n in SilentPlaces(collaterals, es) then {n} else {};
    }
  }

  /** Somebody is charged if and only if there is an offence, the draws say so, and there are fewer offences than
    * participants.
    */
  lemma ChargedIff(s: Session, dice: (nat, nat), shuffled: seq<int>)
    requires multiset(shuffled) == multiset(Offenders(s))
    ensures Charged(s, dice, shuffled).Some? <==>
              && dice.0 <= 33 && 0 < |Offenders(s)| < s.maxParticipants
              && (|Offenders(s)| == s.maxParticipants - 1 ==> dice.1 <= 33)
    ensures s.state == Accepting ==> |Offenders(s)| == |SilentPlaces(s.collaterals, s.entries)|
    ensures s.state == Signing ==> |Offenders(s)| == |UnsignedPlaces(s.entries)|
    ensures s.state !in {Accepting, Signing} ==> Offenders(s) == []
  {
    SilentCount(s.collaterals, s.entries);
    UnsignedCount(s.entries);
  }

  function UnsignedIn(ins: seq<DsIn>): set<nat> { set i: nat | i < |ins| && !ins[i].signed }

  lemma {:induction false} UnsignedOfAppend(a: seq<DsIn>, x: DsIn, collateral: int)
    ensures UnsignedOf(a + [x], collateral) == UnsignedOf(a, collateral) + if x.signed then [] else [collateral]
  {
    if a == [] {
      assert a + [x] == [x] && [x][1..] == [];
    } else {
      UnsignedOfAppend(a[1..], x, collateral);
      assert (a + [x])[0] == a[0] && (a + [x])[1..] == a[1..] + [x];
    }
  }

  lemma {:induction false} UnsignedInCount(ins: seq<DsIn>, collateral: int)
    ensures |UnsignedOf(ins, collateral)| == |UnsignedIn(ins)|
  {
    if ins == [] {
      assert UnsignedIn(ins) == {};
    } else {
      var n := |ins| - 1;
      UnsignedInCount(ins[..n], collateral);
      UnsignedOfAppend(ins[..n], ins[n], collateral);
      assert ins[..n] + [ins[n]] == ins;
      assert UnsignedIn(ins) == UnsignedIn(ins[..n]) + if ins[n].signed then {} else {n};
    }
  }

  lemma {:induction false} UnsignedAppend(a: seq<Entry>, e: Entry)
    ensures Unsigned(a + [e]) == Unsigned(a) + UnsignedOf(e.ins, e.collateral)
  {
    if a == [] {
      assert a + [e] == [e] && [e][1..] == [];
    } else {
      UnsignedAppend(a[1..], e);
      assert (a + [e])[0] == a[0] && (a + [e])[1..] == a[1..] + [e];
    }
  }

  lemma {:induction false} Paired(k: nat, b: set<nat>, c: set<(nat, nat)>)
    requires c == set i | i in b :: (k, i)
    ensures |c| == |b|
  {
    if b == {} {
      assert c == {};
    } else {
      var m :| m in b;
      var c2 := set i | i in b - {m} :: (k, i);
      Paired(k, b - {m}, c2);
      assert c == c2 + {(k, m)};
    }
  }

  lemma {:induction false} UnsignedCount(es: seq<Entry>)
    ensures |Unsigned(es)| == |UnsignedPlaces(es)|
  {
    if es == [] {
      assert UnsignedPlaces(es) == {};
    } else {
      var n: nat := |es| - 1;
      var before, e := es[..n], es[n];
      UnsignedCount(before);
      UnsignedAppend(before, e);
      UnsignedInCount(e.ins, e.collateral);
      assert before + [e] == es;
      var last := set i | i in UnsignedIn(e.ins) :: (n, i);
      Paired(n, UnsignedIn(e.ins), last);
      LastPlaces(es, n, last);
    }
  }

  lemma LastPlaces(es: seq<Entry>, n: nat, last: set<(nat, nat)>)
    requires |es| == n + 1 && last == set i | i in UnsignedIn(es[n].ins) :: (n, i)
    ensures UnsignedPlaces(es) == UnsignedPlaces(es[..n]) + last && UnsignedPlaces(es[..n]) !! last
  {
    forall x: (nat, nat) ensures x in UnsignedPlaces(es) <==> x in UnsignedPlaces(es[..n]) || x in last {
      if x.0 == n { assert x == (n, x.1); }
    }
  }
}
