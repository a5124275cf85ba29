/** What the mixing server does not promise: each failing run, and the exact condition under which the promise holds. */
module MixingLimits {
  import opened Prelude
  import opened Mixing
  import opened MixingRun
  import Coins

  // ---------------------------------------------------------------- denomination

  /** While a session keeps its entries it keeps its denomination and its first entry's outputs. */
  lemma FirstStays(cfg: Config, s: Session, ev: Event)
    requires cfg.Ok() && Inv(cfg, s) && s.entries != [] && Step(cfg, s, ev).0.entries != []
    ensures var t := Step(cfg, s, ev).0; t.denom == s.denom && t.entries[0].outs == s.entries[0].outs
  {
    hide EntriesOk, Merges, Mask, ScriptReply, SubmitReply, EntryOf;
    EntriesAfter(cfg, s, ev);
    match ev {
      case Signs(xs) => AddSigsKeeps(cfg, s, xs);
      case _ =>
    }
  }

  /** The session keeps its entries after each of the events from the n-th on. */
  ghost predicate KeepsEntries(cfg: Config, evs: seq<Event>, n: nat)
    requires cfg.Ok()
  {
    forall i :: n < i <= |evs| ==> Run(cfg, evs[..i]).0.entries != []
  }

  lemma {:induction false} FirstDecides(cfg: Config, evs: seq<Event>, n: nat)
    requires cfg.Ok() && n < |evs| && evs[n].Submits? && KeepsEntries(cfg, evs, n)
    requires Run(cfg, evs[..n]).0.entries == [] && SubmitReply(cfg, Run(cfg, evs[..n]).0, evs[n].submission) == Added
    ensures Run(cfg, evs).0.entries != [] && Run(cfg, evs).0.denom == Run(cfg, evs[..n]).0.denom
    ensures Run(cfg, evs).0.entries[0].outs == evs[n].submission.outs
    decreases |evs|
  {
    hide EntriesOk, Merges, Mask, ScriptReply, SubmitReply, Step;
    var m := |evs| - 1;
    assert evs[..|evs|] == evs;
    RunStep(cfg, evs);
    RunKeeps(cfg, evs[..m]);
    if n == m {
      FirstAdded(cfg, Run(cfg, evs[..m]).0, evs[m]);
    } else {
      forall i | n < i <= m ensures Run(cfg, evs[..m][..i]).0.entries != [] { assert evs[..m][..i] == evs[..i]; }
      assert evs[..m][..n] == evs[..n];
      FirstDecides(cfg, evs[..m], n);
      FirstStays(cfg, Run(cfg, evs[..m]).0, evs[m]);
    }
  }

  lemma FirstAdded(cfg: Config, s: Session, ev: Event)
    requires cfg.Ok() && Inv(cfg, s) && s.entries == [] && ev.Submits? && SubmitReply(cfg, s, ev.submission) == Added
    ensures var t := Step(cfg, s, ev).0; t.entries == [EntryOf(ev.submission)] && t.denom == s.denom
  {
    hide EntriesOk, Merges, Sound, SubmitReply, EntryOf;
    assert s.entries + [EntryOf(ev.submission)] == [EntryOf(ev.submission)];
    SubmitKeeps(cfg, s, ev.submission);
  }

  /** A session's entries have the denomination it was announced for exactly when its first submission has: the n-th
    * event is that submission, and the session has kept its entries since.
    */
  lemma DenomIff(cfg: Config, evs: seq<Event>, n: nat)
    requires cfg.Ok() && n < |evs| && evs[n].Submits? && KeepsEntries(cfg, evs, n)
    requires Run(cfg, evs[..n]).0.entries == [] && SubmitReply(cfg, Run(cfg, evs[..n]).0, evs[n].submission) == Added
    ensures var s := Run(cfg, evs).0;
            (forall k :: 0 <= k < |s.entries| ==> Mask(s.entries[k].outs) == s.denom)
            <==> Mask(evs[n].submission.outs) == Run(cfg, evs[..n]).0.denom
  {
    hide Run, SubmitReply, Mask;
    FirstDecides(cfg, evs, n);
    RunKeeps(cfg, evs);
    var s := Run(cfg, evs).0;
    forall k | 0 < k < |s.entries| ensures Mask(s.entries[k].outs) == Mask(s.entries[0].outs) {
      assert Agree(s.entries[0], s.entries[k]);
    }
  }

  // ---------------------------------------------------------------- a full queue

  const KEY_SCRIPT: seq<nat> := [0x76, 0xa9, 0x14] + seq(20, _ => 0) + [0x88, 0xac]

  /** `n` users join for the largest denomination; the draw gives the smallest pool. */
  function Joins(n: nat): (evs: seq<Event>)
    ensures |evs| == n
  {
    seq(n, _ => Accepts(Join(1, 0, true, false, 0, 0)))
  }

  function Queued(cfg: Config, n: nat): Session {
    Session(Queue, 1, 1, [], Tx([], []), seq(n, _ => 0), cfg.minPool)
  }

  lemma {:induction false} JoinsRun(cfg: Config, n: nat)
    requires cfg.Ok() && 1 <= n <= cfg.minPool
    ensures Run(cfg, Joins(n)) == (Queued(cfg, n), [])
  {
    var evs := Joins(n);
    RunStep(cfg, evs);
    assert evs[..n - 1] == Joins(n - 1);
    if n == 1 {
      assert NULL_SESSION.collaterals + [0] == seq(1, _ => 0);
    } else {
      JoinsRun(cfg, n - 1);
      assert seq(n - 1, _ => 0) + [0] == seq(n, _ => 0);
    }
  }

  /** An offer of one coin, named `n` times under different sequences, for as many outputs of the second denomination. */
  function Offer(o: OutPoint, n: nat): Submission {
    Submission(seq(n, i requires 0 <= i < n => TxIn(o, i, [])), seq(n, _ => TxOut(COIN + 1000, KEY_SCRIPT)), 0, true, _ => true)
  }

  lemma OfferMask(o: OutPoint, n: nat)
    requires n > 0
    ensures Mask(Offer(o, n).outs) == 2
  {
    var outs := Offer(o, n).outs;
    assert forall i :: 0 <= i < n ==> outs[i].value == COIN + 1000;
    assert outs[0].value == COIN + 1000;
    assert Standard(COIN + 1000) by { assert DENOMINATIONS[1] == COIN + 1000; }
    assert Uses(outs, 1);
    assert !Uses(outs, 0) && !Uses(outs, 2) && !Uses(outs, 3) && !Uses(outs, 4);
  }

  lemma {:induction false} OfferScripts(n: nat)
    ensures ScriptReply(seq(n, _ => TxOut(COIN + 1000, KEY_SCRIPT))).None?
  {
    if n > 0 {
      OfferScripts(n - 1);
      assert seq(n, _ => TxOut(COIN + 1000, KEY_SCRIPT))[1..] == seq(n - 1, _ => TxOut(COIN + 1000, KEY_SCRIPT));
    }
  }

  lemma {:induction false} OfferOutSum(n: nat)
    ensures SumOut(seq(n, _ => TxOut(COIN + 1000, KEY_SCRIPT))) == n * (COIN + 1000)
  {
    if n > 0 {
      OfferOutSum(n - 1);
      assert seq(n, _ => TxOut(COIN + 1000, KEY_SCRIPT))[1..] == seq(n - 1, _ => TxOut(COIN + 1000, KEY_SCRIPT));
    }
  }

  lemma {:induction false} SameCoinSum(cfg: Config, bs: seq<Bare>, o: OutPoint)
    requires cfg.value(o) == COIN + 1000 && forall i :: 0 <= i < |bs| ==> bs[i].prevout == o
    ensures SumIn(cfg, bs) == |bs| * (COIN + 1000)
  {
    if bs != [] { SameCoinSum(cfg, bs[1..], o); }
  }

  /** The coin may be spent, and is worth an output of the second denomination. */
  predicate Offerable(cfg: Config, o: OutPoint) { o != NULL_OUTPOINT && cfg.value(o) == COIN + 1000 }

  /** The pool takes an offer of a coin that no entry names, whatever its own denomination is. */
  lemma OfferAdded(cfg: Config, s: Session, o: OutPoint, n: nat)
    requires Ready(s) && 1 <= n <= ENTRY_MAX_SIZE && |s.entries| < s.maxParticipants && Offerable(cfg, o)
    requires forall k :: 0 <= k < |s.entries| ==> Mask(s.entries[k].outs) == 2 && !Shares(EntryOf(Offer(o, n)), s.entries[k])
    ensures SubmitReply(cfg, s, Offer(o, n)) == Added
  {
    hide Mask, Shares, Ready;
    var m := Offer(o, n);
    OfferMask(o, n);
    OfferScripts(n);
    OfferOutSum(n);
    forall i | 0 <= i < n ensures Bares(m.ins)[i].prevout == o {
      var x := m.ins[i];
      assert Bares(m.ins)[i] == BareOf(x);
    }
    SameCoinSum(cfg, Bares(m.ins), o);
  }

  /** A session announced for the largest denomination takes a first entry of the next one, in a pool of any size. */
  lemma DenomCanDiffer(cfg: Config, o: OutPoint)
    requires cfg.Ok() && Offerable(cfg, o)
    ensures var evs := Joins(cfg.minPool) + [Submits(Offer(o, 1))];
            && Run(cfg, evs).0.denom == 1
            && Run(cfg, evs).0.entries == [EntryOf(Offer(o, 1))] && Mask(Offer(o, 1).outs) == 2
  {
    hide Run, SubmitReply, Mask, Step;
    var evs := Joins(cfg.minPool) + [Submits(Offer(o, 1))];
    var s := Queued(cfg, cfg.minPool);
    assert evs[..|evs| - 1] == Joins(cfg.minPool);
    JoinsRun(cfg, cfg.minPool);
    RunStep(cfg, evs);
    RunKeeps(cfg, Joins(cfg.minPool));
    OfferAdded(cfg, s, o, 1);
    FirstAdded(cfg, s, Submits(Offer(o, 1)));
    OfferMask(o, 1);
  }

  // ---------------------------------------------------------------- signing to the end

  lemma {:induction false} NoMatch(e: Entry, x: TxIn, from: nat)
    requires from <= |e.ins| && forall i :: from <= i < |e.ins| ==> !Matches(e.ins[i].txin, x)
    ensures SignEntry(e, x, from).None?
    decreases |e.ins| - from
  {
    if from < |e.ins| { NoMatch(e, x, from + 1); }
  }

  lemma {:induction false} FirstMatch(e: Entry, x: TxIn, from: nat, i: nat)
    requires from <= i < |e.ins| && Matches(e.ins[i].txin, x) && !e.ins[i].signed
    requires forall j :: from <= j < i ==> !Matches(e.ins[j].txin, x)
    ensures SignEntry(e, x, from) == Some(e.(ins := e.ins[i := DsIn(e.ins[i].txin.(sig := x.sig), true)]))
    decreases i - from
  {
    if from < i { FirstMatch(e, x, from + 1, i); }
  }

  lemma {:induction false} OnlyEntry(es: seq<Entry>, x: TxIn, from: nat, k: nat)
    requires from <= k < |es| && SignEntry(es[k], x, 0).Some?
    requires forall l :: from <= l < k ==> SignEntry(es[l], x, 0).None?
    ensures SignEntries(es, x, from) == Some(es[k := SignEntry(es[k], x, 0).value])
    decreases k - from
  {
    if from < k { OnlyEntry(es, x, from + 1, k); }
  }

  lemma {:induction false} BoundIns(ins: seq<DsIn>) returns (n: nat)
    ensures forall i :: 0 <= i < |ins| ==> |ins[i].txin.sig| <= n
  {
    n := 0;
    if ins != [] {
      var a := BoundIns(ins[1..]);
      n := if a < |ins[0].txin.sig| then |ins[0].txin.sig| else a;
      forall i | 0 < i < |ins| ensures |ins[i].txin.sig| <= n { assert ins[i] == ins[1..][i - 1]; }
    }
  }

  lemma {:induction false} BoundSigs(es: seq<Entry>) returns (n: nat)
    ensures forall k, i :: 0 <= k < |es| && 0 <= i < |es[k].ins| ==> |es[k].ins[i].txin.sig| <= n
  {
    n := 0;
    if es != [] {
      var a := BoundSigs(es[1..]);
      var b := BoundIns(es[0].ins);
      n := if a < b then b else a;
      forall k, i | 0 < k < |es| && 0 <= i < |es[k].ins| ensures |es[k].ins[i].txin.sig| <= n { assert es[k] == es[1..][k - 1]; }
    }
  }

  lemma FreshSig(es: seq<Entry>) returns (sig: seq<nat>)
    ensures !SigKnown(es, sig)
  {
    var n := BoundSigs(es);
    sig := seq(n + 1, _ => 0);
  }

  /** Every input up to the i-th of the k-th entry is signed. */
  ghost predicate SignedUpTo(es: seq<Entry>, k: nat, i: nat) {
    forall l, j :: 0 <= l < |es| && 0 <= j < |es[l].ins| && (l < k || (l == k && j < i)) ==> es[l].ins[j].signed
  }

  /** A valid signature for the input is taken, and signs that input. */
  lemma SignNext(cfg: Config, s: Session, k: nat, i: nat) returns (x: TxIn)
    requires EntriesOk(cfg, s.entries) && ListedOnce(s.entries)
    requires k < |s.entries| && i < |s.entries[k].ins| && !s.entries[k].ins[i].signed
    ensures AddSig(s, x, true).1
    ensures var es, fs := s.entries, AddSig(s, x, true).0.entries;
            |fs| == |es| && |fs[k].ins| == |es[k].ins| && fs[k].ins[i].signed
            && (forall l :: 0 <= l < |es| && l != k ==> fs[l] == es[l])
            && forall j :: 0 <= j < |es[k].ins| && j != i ==> fs[k].ins[j] == es[k].ins[j]
  {
    var es := s.entries;
    var e := es[k];
    var sig := FreshSig(es);
    x := e.ins[i].txin.(sig := sig);
    assert InputKnown(es, x.prevout);
    forall l | 0 <= l < k ensures SignEntry(es[l], x, 0).None? {
      assert Agree(es[l], es[k]);
      NoMatch(es[l], x, 0);
    }
    forall j | 0 <= j < i ensures !Matches(e.ins[j].txin, x) {
      var a, b := Ins(e)[j], Ins(e)[i];
      assert Bares(Ins(e))[j] == BareOf(a) && Bares(Ins(e))[i] == BareOf(b);
    }
    FirstMatch(e, x, 0, i);
    OnlyEntry(es, x, 0, k);
  }

  lemma {:induction false} SignRest(cfg: Config, s: Session, k: nat, i: nat) returns (xs: seq<(TxIn, bool)>)
    requires cfg.Ok() && Inv(cfg, s) && s.state == Signing && ListedOnce(s.entries)
    requires k <= |s.entries| && (if k < |s.entries| then i <= |s.entries[k].ins| else i == 0) && SignedUpTo(s.entries, k, i)
    ensures AddSigs(s, xs).1 && AllSigned(AddSigs(s, xs).0.entries) && AddSigs(s, xs).0.state == Signing
    decreases |s.entries| - k, if k < |s.entries| then |s.entries[k].ins| - i else 0
  {
    hide Inv, ListedOnce, AddSig;
    if k == |s.entries| {
      xs := [];
    } else if i == |s.entries[k].ins| {
      xs := SignRest(cfg, s, k + 1, 0);
    } else if s.entries[k].ins[i].signed {
      xs := SignRest(cfg, s, k, i + 1);
    } else {
      var x := SignNextKeeps(cfg, s, k, i);
      var ys := SignRest(cfg, AddSig(s, x, true).0, k, i + 1);
      xs := [(x, true)] + ys;
      assert xs[1..] == ys;
    }
  }

  lemma SignNextKeeps(cfg: Config, s: Session, k: nat, i: nat) returns (x: TxIn)
    requires cfg.Ok() && Inv(cfg, s) && s.state == Signing && ListedOnce(s.entries)
    requires k < |s.entries| && i < |s.entries[k].ins| && !s.entries[k].ins[i].signed && SignedUpTo(s.entries, k, i)
    ensures AddSig(s, x, true).1
    ensures var t := AddSig(s, x, true).0;
            && Inv(cfg, t) && t.state == Signing && ListedOnce(t.entries) && |t.entries| == |s.entries|
            && |t.entries[k].ins| == |s.entries[k].ins| && SignedUpTo(t.entries, k, i + 1)
  {
    hide EntriesOk, Merges, Mask, SignEntries, SignFinal, SigKnown, InputKnown;
    x := SignNext(cfg, s, k, i);
    var one := [(x, true)];
    assert one[1..] == [];
    assert AddSigs(s, one).0 == AddSig(s, x, true).0;
    AddSigsKeeps(cfg, s, one);
    SameListedOnce(s.entries, AddSigs(s, one).0.entries);
  }

  /** Signatures can still finish a session exactly when no entry lists an outpoint twice under one sequence. */
  lemma CommitsIff(cfg: Config, s: Session)
    requires cfg.Ok() && Inv(cfg, s) && s.state == Signing
    ensures (exists xs :: Sign(s, xs).1.Some?) <==> ListedOnce(s.entries)
  {
    if ListedOnce(s.entries) {
      var xs := SignRest(cfg, s, 0, 0);
      assert Sign(s, xs).1.Some?;
    }
    if xs :| Sign(s, xs).1.Some? {
      SignKeeps(cfg, s, xs);
      AddSigsKeeps(cfg, s, xs);
      MergedListedOnce(cfg, s.entries, AddSigs(s, xs).0.entries);
    }
  }

  // ---------------------------------------------------------------- one coin, paid out twice

  /** The first participant names its coin twice, the others once. */
  function Offers(os: seq<OutPoint>): (evs: seq<Event>)
    ensures |evs| == |os|
  {
    seq(|os|, i requires 0 <= i < |os| => Submits(Offer(os[i], if i == 0 then 2 else 1)))
  }

  function Offered(os: seq<OutPoint>): (es: seq<Entry>)
    ensures |es| == |os|
  {
    seq(|os|, i requires 0 <= i < |os| => EntryOf(Offer(os[i], if i == 0 then 2 else 1)))
  }

  lemma OfferIns(o: OutPoint, n: nat)
    ensures var e := EntryOf(Offer(o, n)); |e.ins| == n && forall i :: 0 <= i < n ==> e.ins[i].txin == TxIn(o, i, [])
  {}

  ghost predicate AllOfferable(cfg: Config, os: seq<OutPoint>) {
    Distinct(os) && forall i :: 0 <= i < |os| ==> Offerable(cfg, os[i])
  }

  lemma {:induction false} OffersRun(cfg: Config, os: seq<OutPoint>)
    requires cfg.Ok() && |os| <= cfg.minPool && AllOfferable(cfg, os)
    ensures var (s, out) := Run(cfg, Joins(cfg.minPool) + [Completes] + Offers(os));
            && out == [] && s.entries == Offered(os)
            && s.state == (if |os| == cfg.minPool then Signing else Accepting)
            && s.id == 1 && |s.collaterals| == cfg.minPool == s.maxParticipants
  {
    hide Accept, SubmitReply, Mask, EntryOf, Offer, AddSigs, FinalTx;
    var evs := Joins(cfg.minPool) + [Completes] + Offers(os);
    RunStep(cfg, evs);
    if os == [] {
      assert evs[..|evs| - 1] == Joins(cfg.minPool);
      JoinsRun(cfg, cfg.minPool);
    } else {
      var n := |os| - 1;
      var before := os[..n];
      OffersRun(cfg, before);
      assert evs[..|evs| - 1] == Joins(cfg.minPool) + [Completes] + Offers(before);
      var s := Run(cfg, evs[..|evs| - 1]).0;
      var m := Offer(os[n], if n == 0 then 2 else 1);
      assert evs[|evs| - 1] == Submits(m);
      NextOffered(cfg, s, os);
      assert s.entries + [EntryOf(m)] == Offered(os);
    }
  }

  lemma NextOffered(cfg: Config, s: Session, os: seq<OutPoint>)
    requires os != [] && AllOfferable(cfg, os) && s.entries == Offered(os[..|os| - 1]) && Ready(s) && |os| <= s.maxParticipants
    ensures SubmitReply(cfg, s, Offer(os[|os| - 1], if |os| == 1 then 2 else 1)) == Added
  {
    hide Mask, SubmitReply, Offer, EntryOf;
    var n := |os| - 1;
    forall k | 0 <= k < n
      ensures Mask(s.entries[k].outs) == 2
      ensures !Shares(EntryOf(Offer(os[n], 1)), s.entries[k])
    {
      OfferOuts(os[k], if k == 0 then 2 else 1);
      OfferMask(os[k], if k == 0 then 2 else 1);
      OfferIns(os[k], if k == 0 then 2 else 1);
      OfferIns(os[n], 1);
    }
    OfferAdded(cfg, s, os[n], if n == 0 then 2 else 1);
  }

  lemma OfferOuts(o: OutPoint, n: nat)
    ensures EntryOf(Offer(o, n)).outs == Offer(o, n).outs
  {}

  lemma OfferedShape(os: seq<OutPoint>)
    requires os != []
    ensures ListedOnce(Offered(os)) && !NamedOnce(Offered(os))
  {
    hide EntryOf, Offer;
    forall k | 0 <= k < |os| ensures Distinct(Bares(Ins(Offered(os)[k]))) { OfferListedOnce(os[k], if k == 0 then 2 else 1); }
    OfferNamesTwice(os[0]);
    assert Offered(os)[0] == EntryOf(Offer(os[0], 2));
  }

  lemma OfferListedOnce(o: OutPoint, n: nat)
    ensures Distinct(Bares(Ins(EntryOf(Offer(o, n)))))
  {
    var e := EntryOf(Offer(o, n));
    forall i | 0 <= i < n ensures Bares(Ins(e))[i] == Bare(o, i) {
      var x := Ins(e)[i];
      assert Bares(Ins(e))[i] == BareOf(x);
    }
  }

  lemma OfferNamesTwice(o: OutPoint)
    ensures !Distinct(Map(PrevoutOf, Ins(EntryOf(Offer(o, 2)))))
  {
    var xs := Ins(EntryOf(Offer(o, 2)));
    var x, y := xs[0], xs[1];
    assert Map(PrevoutOf, xs)[0] == PrevoutOf(x) && Map(PrevoutOf, xs)[1] == PrevoutOf(y);
  }

  lemma SameNamedOnce(a: seq<Entry>, b: seq<Entry>)
    requires SameEntries(a, b) && NamedOnce(b)
    ensures NamedOnce(a)
  {
    forall k | 0 <= k < |a| ensures Distinct(Map(PrevoutOf, Ins(a[k]))) {
      assert SameEntry(a[k], b[k]);
      assert Bares(Ins(a[k])) == Bares(Ins(b[k]));
      OutpointsOfBares(Ins(a[k]));
      OutpointsOfBares(Ins(b[k]));
    }
  }

  /** The inputs of a merge spend coins that the entries name. */
  lemma MergeWorthy(cfg: Config, tx: Tx, es: seq<Entry>)
    requires Merges(tx, es)
    requires forall k, i :: 0 <= k < |es| && 0 <= i < |es[k].ins| ==> cfg.value(es[k].ins[i].txin.prevout) > 0
    ensures Worthy(cfg, Bares(tx.vin))
  {
    var a, b := Bares(tx.vin), Bares(AllIns(es));
    forall x | x in a ensures cfg.value(x.prevout) > 0 {
      assert x in multiset(a);
      assert x in b;
      var i :| 0 <= i < |b| && b[i] == x;
      var k, l := AllInsFrom(es, i);
      var y := AllIns(es)[i];
      assert b[i] == BareOf(y);
    }
  }

  lemma SameWorthy(cfg: Config, os: seq<OutPoint>, es: seq<Entry>)
    requires AllOfferable(cfg, os) && SameEntries(Offered(os), es)
    ensures forall k, i :: 0 <= k < |es| && 0 <= i < |es[k].ins| ==> cfg.value(es[k].ins[i].txin.prevout) > 0
  {
    hide EntryOf, Offer;
    forall k, i | 0 <= k < |es| && 0 <= i < |es[k].ins| ensures cfg.value(es[k].ins[i].txin.prevout) > 0 {
      assert SameEntry(Offered(os)[k], es[k]);
      assert BareOf(Offered(os)[k].ins[i].txin) == BareOf(es[k].ins[i].txin);
      OfferIns(os[k], if k == 0 then 2 else 1);
    }
  }

  /** In a pool of any size, with coins to fill it, a run hands the memory pool, whose own checks come next, a transaction
    * that pays out more than the coins it spends are worth: one entry names its coin twice, under two sequences.
    */
  lemma PaysTwice(cfg: Config, os: seq<OutPoint>)
    requires cfg.Ok() && |os| == cfg.minPool && AllOfferable(cfg, os)
    ensures exists evs :: Run(cfg, evs).1 != [] && Overpays(cfg, Run(cfg, evs).1[0])
  {
    hide Step, Inv, Sound, EntryOf, Offer, AllOfferable, Offered, Sign, ListedOnce;
    var evs := Joins(cfg.minPool) + [Completes] + Offers(os);
    OffersRun(cfg, os);
    RunKeeps(cfg, evs);
    var s := Run(cfg, evs).0;
    OfferedShape(os);
    CommitsIff(cfg, s);
    var xs :| Sign(s, xs).1.Some?;
    var all := evs + [Signs(xs)];
    assert all[..|all| - 1] == evs;
    RunStep(cfg, all);
    SignsOverpays(cfg, s, xs, os);
  }

  ghost predicate Overpays(cfg: Config, b: Broadcast) {
    !NamedOnce(b.entries) && SumOut(b.tx.vout) > Worth(cfg, Spent(Bares(b.tx.vin)))
  }

  lemma SignsOverpays(cfg: Config, s: Session, xs: seq<(TxIn, bool)>, os: seq<OutPoint>)
    requires cfg.Ok() && Inv(cfg, s) && Sign(s, xs).1.Some? && os != [] && AllOfferable(cfg, os) && s.entries == Offered(os)
    ensures Step(cfg, s, Signs(xs)) == Sign(s, xs)
    ensures Overpays(cfg, Broadcast(Sign(s, xs).1.value, Merged(s, Signs(xs))))
  {
    hide Sign, AddSigs, EntryOf, Offer, NamedOnce, EntriesOk, Merges, Distinct;
    var tx, es := Sign(s, xs).1.value, AddSigs(s, xs).0.entries;
    SignKeeps(cfg, s, xs);
    AddSigsKeeps(cfg, s, xs);
    OfferedShape(os);
    if NamedOnce(es) { SameNamedOnce(s.entries, es); }
    SameWorthy(cfg, os, es);
    MergeWorthy(cfg, tx, es);
    PaysWorthIff(cfg, tx, es);
    MergeConserves(cfg, tx, es);
    ListedWorth(cfg, Bares(tx.vin));
  }

  /** In signing, the outpoints of the merge are distinct exactly when those of each entry are. */
  lemma OutpointsDistinctIff(cfg: Config, evs: seq<Event>)
    requires cfg.Ok() && Run(cfg, evs).0.state == Signing
    ensures Distinct(Map(PrevoutOf, Run(cfg, evs).0.final.vin)) <==> NamedOnce(Run(cfg, evs).0.entries)
  {
    RunKeeps(cfg, evs);
    MergeOutpointsIff(cfg, Run(cfg, evs).0.final, Run(cfg, evs).0.entries);
  }
}
