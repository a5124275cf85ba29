/** What every run of the mixing server keeps, and what it may ever broadcast. */
module MixingRun {
  import opened Prelude
  import opened Mixing
  import Coins
  import Lex

  // ---------------------------------------------------------------- sequences

  ghost predicate Distinct<T(!new)>(xs: seq<T>) { forall i, j :: 0 <= i < j < |xs| ==> xs[i] != xs[j] }

  /** Sequences with the same elements have the same length, and share the first element of the one. */
  lemma TakeOut<T>(a: seq<T>, b: seq<T>) returns (j: nat)
    requires a != [] && multiset(a) == multiset(b)
    ensures j < |b| && b[j] == a[0]
    ensures multiset(a[1..]) == multiset(b[..j] + b[j + 1..])
  {
    assert a[0] in multiset(a);
    assert a[0] in b;
    j :| 0 <= j < |b| && b[j] == a[0];
    assert a == [a[0]] + a[1..];
    assert b == b[..j] + [b[j]] + b[j + 1..];
    assert multiset(a[1..]) == multiset(a) - multiset{a[0]};
    assert multiset(b[..j] + b[j + 1..]) == multiset(b) - multiset{b[j]};
  }

  lemma {:induction false} MapPerm<X, K>(f: X -> K, a: seq<X>, b: seq<X>)
    requires multiset(a) == multiset(b)
    ensures multiset(Map(f, a)) == multiset(Map(f, b))
    decreases |a|
  {
    if a == [] {
      assert |multiset(b)| == 0;
    } else {
      var j := TakeOut(a, b);
      var rest := b[..j] + b[j + 1..];
      MapPerm(f, a[1..], rest);
      assert Map(f, a) == [f(a[0])] + Map(f, a[1..]);
      assert Map(f, b) == Map(f, b[..j]) + [f(b[j])] + Map(f, b[j + 1..]);
      assert Map(f, rest) == Map(f, b[..j]) + Map(f, b[j + 1..]);
    }
  }

  lemma {:induction false} DistinctPerm<T(!new)>(a: seq<T>, b: seq<T>)
    requires multiset(a) == multiset(b) && Distinct(a)
    ensures Distinct(b)
    decreases |a|
  {
    if a == [] {
      assert |multiset(b)| == 0;
    } else {
      var j := TakeOut(a, b);
      var rest := b[..j] + b[j + 1..];
      DistinctPerm(a[1..], rest);
      assert a[0] !in a[1..];
      assert a[0] !in multiset(a[1..]);
      forall i, k | 0 <= i < k < |b| ensures b[i] != b[k] {
        assert i < j ==> rest[i] == b[i];
        assert k < j ==> rest[k] == b[k];
        assert i > j ==> rest[i - 1] == b[i];
        assert k > j ==> rest[k - 1] == b[k];
        assert i == j ==> b[k] in rest;
        assert k == j ==> b[i] in rest;
        assert a[0] !in rest by { assert a[0] !in multiset(rest); }
      }
    }
  }

  lemma {:induction false} InsertSortedPerm<T>(x: T, xs: seq<T>, less: (T, T) -> bool)
    ensures multiset(InsertSorted(x, xs, less)) == multiset(xs) + multiset{x}
  {
    if xs != [] && less(xs[0], x) {
      InsertSortedPerm(x, xs[1..], less);
      assert xs == [xs[0]] + xs[1..];
    }
  }

  lemma {:induction false} SortedPerm<T>(xs: seq<T>, less: (T, T) -> bool)
    ensures multiset(Sorted(xs, less)) == multiset(xs)
  {
    if xs != [] {
      SortedPerm(xs[1..], less);
      InsertSortedPerm(xs[0], Sorted(xs[1..], less), less);
      assert xs == [xs[0]] + xs[1..];
    }
  }

  predicate Ordered<T>(xs: seq<T>, less: (T, T) -> bool) {
    forall i {:trigger xs[i]} :: 0 < i < |xs| ==> !less(xs[i], xs[i - 1])
  }

  lemma {:induction false} InsertSortedOrdered<T>(x: T, xs: seq<T>, less: (T, T) -> bool)
    requires Ordered(xs, less)
    requires forall y :: y in xs && less(y, x) ==> !less(x, y)
    ensures Ordered(InsertSorted(x, xs, less), less)
    ensures xs != [] ==> InsertSorted(x, xs, less)[0] in [x, xs[0]]
  {
    if xs != [] && less(xs[0], x) {
      InsertSortedOrdered(x, xs[1..], less);
    }
  }

  lemma {:induction false} SortedOrdered<T(!new)>(xs: seq<T>, less: (T, T) -> bool)
    requires forall x, y :: less(x, y) ==> !less(y, x)
    ensures Ordered(Sorted(xs, less), less)
  {
    if xs != [] {
      SortedOrdered(xs[1..], less);
      InsertSortedOrdered(xs[0], Sorted(xs[1..], less), less);
    }
  }

  // ---------------------------------------------------------------- sums

  lemma {:induction false} SumInConcat(cfg: Config, a: seq<Bare>, b: seq<Bare>)
    ensures SumIn(cfg, a + b) == SumIn(cfg, a) + SumIn(cfg, b)
  {
    if a == [] {
      assert a + b == b;
    } else {
      SumInConcat(cfg, a[1..], b);
      assert (a + b)[1..] == a[1..] + b;
    }
  }

  lemma {:induction false} SumOutConcat(a: seq<TxOut>, b: seq<TxOut>)
    ensures SumOut(a + b) == SumOut(a) + SumOut(b)
  {
    if a == [] {
      assert a + b == b;
    } else {
      SumOutConcat(a[1..], b);
      assert (a + b)[1..] == a[1..] + b;
    }
  }

  lemma {:induction false} SumInPerm(cfg: Config, a: seq<Bare>, b: seq<Bare>)
    requires multiset(a) == multiset(b)
    ensures SumIn(cfg, a) == SumIn(cfg, b)
    decreases |a|
  {
    if a == [] {
      assert |multiset(b)| == 0;
    } else {
      var j := TakeOut(a, b);
      SumInPerm(cfg, a[1..], b[..j] + b[j + 1..]);
      assert b == b[..j] + ([b[j]] + b[j + 1..]);
      SumInConcat(cfg, b[..j], [b[j]] + b[j + 1..]);
      SumInConcat(cfg, b[..j], b[j + 1..]);
    }
  }

  lemma {:induction false} SumOutPerm(a: seq<TxOut>, b: seq<TxOut>)
    requires multiset(a) == multiset(b)
    ensures SumOut(a) == SumOut(b)
    decreases |a|
  {
    if a == [] {
      assert |multiset(b)| == 0;
    } else {
      var j := TakeOut(a, b);
      SumOutPerm(a[1..], b[..j] + b[j + 1..]);
      assert b == b[..j] + ([b[j]] + b[j + 1..]);
      SumOutConcat(b[..j], [b[j]] + b[j + 1..]);
      SumOutConcat(b[..j], b[j + 1..]);
    }
  }

  // ---------------------------------------------------------------- entries

  /** Balanced, of standard amounts to key hashes, and within the size limits. */
  predicate EntryOk(cfg: Config, e: Entry) {
    && |e.ins| <= ENTRY_MAX_SIZE && |e.outs| <= ENTRY_MAX_SIZE
    && SumIn(cfg, Bares(Ins(e))) == SumOut(e.outs)
    && Mask(e.outs) != 0
    && (forall i :: 0 <= i < |e.outs| ==> IsP2PKH(e.outs[i].script))
    && (forall i :: 0 <= i < |e.ins| ==> e.ins[i].txin.prevout != NULL_OUTPOINT)
    && FirstSigned(e)
  }

  /** Of inputs that agree on outpoint and sequence only the first can hold a signature. */
  predicate FirstSigned(e: Entry) {
    forall i, j :: 0 <= i < j < |e.ins| && BareOf(e.ins[i].txin) == BareOf(e.ins[j].txin) ==> !e.ins[j].signed
  }

  predicate Agree(a: Entry, b: Entry) { Mask(a.outs) == Mask(b.outs) && !Shares(a, b) && !Shares(b, a) }

  predicate EntriesOk(cfg: Config, es: seq<Entry>) {
    && (forall k :: 0 <= k < |es| ==> EntryOk(cfg, es[k]))
    && (forall k, l :: 0 <= k < l < |es| ==> Agree(es[k], es[l]))
  }

  lemma NoSums(cfg: Config)
    ensures SumIn(cfg, []) == 0 == SumOut([])
  {}

  lemma {:induction false} EntriesBalance(cfg: Config, es: seq<Entry>)
    requires forall k :: 0 <= k < |es| ==> EntryOk(cfg, es[k])
    ensures SumIn(cfg, Bares(AllIns(es))) == SumOut(AllOuts(es))
  {
    hide Mask, IsP2PKH, FirstSigned, SumIn, SumOut;
    if es == [] {
      NoSums(cfg);
    } else {
      var init, e := es[..|es| - 1], es[|es| - 1];
      EntriesBalance(cfg, init);
      assert Bares(AllIns(es)) == Bares(AllIns(init)) + Bares(Ins(e));
      SumInConcat(cfg, Bares(AllIns(init)), Bares(Ins(e)));
      SumOutConcat(AllOuts(init), e.outs);
    }
  }

  lemma {:induction false} AllInsFrom(es: seq<Entry>, i: nat) returns (k: nat, j: nat)
    requires i < |AllIns(es)|
    ensures k < |es| && j < |es[k].ins| && es[k].ins[j].txin == AllIns(es)[i]
  {
    var init := es[..|es| - 1];
    if i < |AllIns(init)| {
      k, j := AllInsFrom(init, i);
    } else {
      k, j := |es| - 1, i - |AllIns(init)|;
    }
  }

  /** Inputs are distinct over a whole pool exactly when they are within each entry. */
  lemma {:induction false} DistinctIff<K(!new)>(es: seq<Entry>, key: TxIn -> K)
    requires forall k, l :: 0 <= k < l < |es| ==> !Shares(es[k], es[l])
    requires forall x, y :: key(x) == key(y) ==> x.prevout == y.prevout
    ensures Distinct(Map(key, AllIns(es))) <==> forall k :: 0 <= k < |es| ==> Distinct(Map(key, Ins(es[k])))
  {
    if es != [] {
      var init, e := es[..|es| - 1], es[|es| - 1];
      DistinctIff(init, key);
      var a, b := Map(key, AllIns(init)), Map(key, Ins(e));
      assert Map(key, AllIns(es)) == a + b;
      forall i, j | 0 <= i < |a| && 0 <= j < |b| ensures a[i] != b[j] {
        var k, l := AllInsFrom(init, i);
        assert !Shares(es[k], e);
        assert init[k].ins[l].txin.prevout != e.ins[j].txin.prevout;
      }
      DistinctConcat(a, b);
      assert (forall k :: 0 <= k < |es| ==> Distinct(Map(key, Ins(es[k]))))
        <==> (forall k :: 0 <= k < |init| ==> Distinct(Map(key, Ins(init[k])))) && Distinct(b);
    }
  }

  lemma DistinctConcat<T(!new)>(a: seq<T>, b: seq<T>)
    requires forall i, j :: 0 <= i < |a| && 0 <= j < |b| ==> a[i] != b[j]
    ensures Distinct(a + b) <==> Distinct(a) && Distinct(b)
  {
    var c := a + b;
    if Distinct(c) {
      assert forall i, j :: 0 <= i < j < |a| ==> c[i] == a[i] && c[j] == a[j] && c[i] != c[j];
      assert forall i, j :: 0 <= i < j < |b| ==> c[|a| + i] == b[i] && c[|a| + j] == b[j] && c[|a| + i] != c[|a| + j];
    }
  }

  // ---------------------------------------------------------------- coins

  function PrevoutOf(x: TxIn): OutPoint { x.prevout }
  function OutpointOf(b: Bare): OutPoint { b.prevout }

  lemma OutpointsOfBares(xs: seq<TxIn>)
    ensures Map(OutpointOf, Bares(xs)) == Map(PrevoutOf, xs)
  {
    forall i | 0 <= i < |xs| ensures Map(OutpointOf, Bares(xs))[i] == Map(PrevoutOf, xs)[i] {
      var x := xs[i];
      var b := Bares(xs)[i];
      assert b == BareOf(x);
      assert Map(OutpointOf, Bares(xs))[i] == OutpointOf(b);
      assert Map(PrevoutOf, xs)[i] == PrevoutOf(x);
    }
  }

  /** The coins that inputs spend, each once. */
  ghost function Spent(bs: seq<Bare>): set<OutPoint> { set b | b in bs :: b.prevout }

  /** What a set of coins is worth. */
  ghost function Worth(cfg: Config, coins: set<OutPoint>): int {
    if coins == {} then 0 else var o :| o in coins; cfg.value(o) + Worth(cfg, coins - {o})
  }

  lemma {:induction false} WorthRemove(cfg: Config, coins: set<OutPoint>, o: OutPoint)
    requires o in coins
    ensures Worth(cfg, coins) == cfg.value(o) + Worth(cfg, coins - {o})
    decreases |coins|
  {
    var p :| p in coins && Worth(cfg, coins) == cfg.value(p) + Worth(cfg, coins - {p});
    if p != o {
      WorthRemove(cfg, coins - {p}, o);
      WorthRemove(cfg, coins - {o}, p);
      assert coins - {p} - {o} == coins - {o} - {p};
    }
  }

  ghost predicate Worthy(cfg: Config, bs: seq<Bare>) { forall b :: b in bs ==> cfg.value(b.prevout) > 0 }

  /** Inputs count for the coins they spend if no coin is listed twice; of coins that are worth something, only if. */
  lemma {:induction false} ListedWorth(cfg: Config, bs: seq<Bare>)
    ensures Distinct(Map(OutpointOf, bs)) ==> SumIn(cfg, bs) == Worth(cfg, Spent(bs))
    ensures Worthy(cfg, bs) ==> SumIn(cfg, bs) >= Worth(cfg, Spent(bs))
    ensures Worthy(cfg, bs) && !Distinct(Map(OutpointOf, bs)) ==> SumIn(cfg, bs) > Worth(cfg, Spent(bs))
  {
    if bs == [] {
      assert Spent(bs) == {};
    } else {
      var o, rest := bs[0].prevout, bs[1..];
      ListedWorth(cfg, rest);
      assert bs == [bs[0]] + rest;
      assert Spent(bs) == {o} + Spent(rest);
      DistinctHead(bs);
      if o in Spent(rest) {
        assert Spent(bs) == Spent(rest);
      } else {
        WorthRemove(cfg, Spent(bs), o);
        assert Spent(bs) - {o} == Spent(rest);
      }
    }
  }

  lemma DistinctHead(bs: seq<Bare>)
    requires bs != []
    ensures Distinct(Map(OutpointOf, bs)) <==> bs[0].prevout !in Spent(bs[1..]) && Distinct(Map(OutpointOf, bs[1..]))
  {
    var ks, rest := Map(OutpointOf, bs), bs[1..];
    forall i | 0 <= i < |bs| ensures ks[i] == bs[i].prevout { var b := bs[i]; assert ks[i] == OutpointOf(b); }
    forall i | 0 <= i < |rest| ensures Map(OutpointOf, rest)[i] == ks[i + 1] {
      var b := rest[i];
      assert b == bs[i + 1] && Map(OutpointOf, rest)[i] == OutpointOf(b);
    }
    if bs[0].prevout in Spent(rest) {
      var b :| b in rest && b.prevout == bs[0].prevout;
      var i :| 0 <= i < |rest| && rest[i] == b;
      assert ks[0] == ks[i + 1];
    } else {
      forall i | 0 < i < |bs| ensures ks[0] != ks[i] { assert bs[i] == rest[i - 1] && bs[i] in rest; }
      assert ks == [ks[0]] + Map(OutpointOf, rest);
    }
  }

  // ---------------------------------------------------------------- the invariant

  /** `tx` is the entries' inputs and outputs, each in BIP 69 order; signatures aside for inputs. */
  ghost predicate Merges(tx: Tx, es: seq<Entry>) {
    && multiset(Bares(tx.vin)) == multiset(Bares(AllIns(es)))
    && multiset(tx.vout) == multiset(AllOuts(es))
    && Ordered(tx.vin, InLess) && Ordered(tx.vout, OutLess)
  }

  ghost predicate Inv(cfg: Config, s: Session) {
    && (s.state == Idle <==> s.id == 0)
    && (s.state == Idle ==> s == NULL_SESSION)
    && (s.state != Idle ==> cfg.minPool <= s.maxParticipants <= cfg.maxPool)
    && (s.state != Idle ==> DenomAccepted(s.denom) && 1 <= |s.collaterals| <= cfg.maxPool)
    && (s.state == Queue ==> |s.collaterals| <= s.maxParticipants)
    && (s.state in {Accepting, Signing} || s.entries != [] ==> Ready(s))
    && |s.entries| <= s.maxParticipants
    && EntriesOk(cfg, s.entries)
    && (s.state != Signing ==> s.final == Tx([], []))
    && (s.state == Signing ==> |s.entries| == s.maxParticipants && Merges(s.final, s.entries))
  }

  /** No entry names a coin twice. The pool compares an entry with the others, not with itself. */
  ghost predicate NamedOnce(es: seq<Entry>) { forall k :: 0 <= k < |es| ==> Distinct(Map(PrevoutOf, Ins(es[k]))) }

  /** What may be handed over for broadcast: the merge of enough agreeing, balanced, fully signed entries. No outpoint is
    * listed twice under one sequence, and where no entry names a coin twice it pays out what its coins are worth.
    */
  ghost predicate Sound(cfg: Config, tx: Tx, es: seq<Entry>) {
    && cfg.minPool <= |es| <= cfg.maxPool
    && EntriesOk(cfg, es) && AllSigned(es) && Merges(tx, es)
    && SumIn(cfg, Bares(tx.vin)) == SumOut(tx.vout)
    && Distinct(Bares(tx.vin))
    && (NamedOnce(es) ==> Distinct(Map(PrevoutOf, tx.vin)) && SumOut(tx.vout) == Worth(cfg, Spent(Bares(tx.vin))))
  }

  lemma FinalMerges(es: seq<Entry>)
    ensures Merges(FinalTx(es), es)
  {
    SortedPerm(AllIns(es), InLess);
    SortedPerm(AllOuts(es), OutLess);
    MapPerm(BareOf, FinalTx(es).vin, AllIns(es));
    SortedOrdered(AllIns(es), InLess);
    forall x, y | OutLess(x, y) ensures !OutLess(y, x) {
      if x.value == y.value { Lex.Asymmetric(x.script, y.script); }
    }
    SortedOrdered(AllOuts(es), OutLess);
  }

  /** A merge of entries pays out what it takes in. */
  lemma MergeConserves(cfg: Config, tx: Tx, es: seq<Entry>)
    requires EntriesOk(cfg, es) && Merges(tx, es)
    ensures SumIn(cfg, Bares(tx.vin)) == SumOut(tx.vout)
  {
    EntriesBalance(cfg, es);
    SumInPerm(cfg, Bares(tx.vin), Bares(AllIns(es)));
    SumOutPerm(tx.vout, AllOuts(es));
  }

  /** Complete signatures mean that no input is listed twice. */
  lemma SignedDistinct(cfg: Config, tx: Tx, es: seq<Entry>)
    requires EntriesOk(cfg, es) && Merges(tx, es) && AllSigned(es)
    ensures Distinct(Bares(tx.vin))
  {
    forall k, l | 0 <= k < l < |es| ensures !Shares(es[k], es[l]) { assert Agree(es[k], es[l]); }
    DistinctIff(es, BareOf);
    forall k | 0 <= k < |es| ensures Distinct(Map(BareOf, Ins(es[k]))) {
      assert FirstSigned(es[k]) by { assert EntryOk(cfg, es[k]); }
    }
    DistinctPerm(Bares(AllIns(es)), Bares(tx.vin));
  }

  /** Outpoints repeat in a merge only where they do within an entry. */
  lemma MergeOutpointsIff(cfg: Config, tx: Tx, es: seq<Entry>)
    requires EntriesOk(cfg, es) && Merges(tx, es)
    ensures Distinct(Map(PrevoutOf, tx.vin)) <==> NamedOnce(es)
  {
    forall k, l | 0 <= k < l < |es| ensures !Shares(es[k], es[l]) { assert Agree(es[k], es[l]); }
    DistinctIff(es, PrevoutOf);
    var a, b := Bares(tx.vin), Bares(AllIns(es));
    MapPerm(OutpointOf, a, b);
    OutpointsOfBares(tx.vin);
    OutpointsOfBares(AllIns(es));
    if Distinct(Map(OutpointOf, a)) {
      DistinctPerm(Map(OutpointOf, a), Map(OutpointOf, b));
    } else if Distinct(Map(OutpointOf, b)) {
      DistinctPerm(Map(OutpointOf, b), Map(OutpointOf, a));
    }
  }

  /** A merge pays out what its coins are worth if no entry names a coin twice; with coins worth something, only if. */
  lemma PaysWorthIff(cfg: Config, tx: Tx, es: seq<Entry>)
    requires EntriesOk(cfg, es) && Merges(tx, es)
    ensures NamedOnce(es) ==> SumOut(tx.vout) == Worth(cfg, Spent(Bares(tx.vin)))
    ensures Worthy(cfg, Bares(tx.vin)) ==> (SumOut(tx.vout) == Worth(cfg, Spent(Bares(tx.vin))) <==> NamedOnce(es))
  {
    hide EntriesOk, Merges, NamedOnce, Distinct;
    MergeConserves(cfg, tx, es);
    MergeOutpointsIff(cfg, tx, es);
    OutpointsOfBares(tx.vin);
    ListedWorth(cfg, Bares(tx.vin));
  }

  lemma NullKeeps(cfg: Config)
    ensures Inv(cfg, NULL_SESSION)
  {}

  lemma CheckPoolKeeps(cfg: Config, s: Session)
    requires cfg.Ok() && Inv(cfg, s)
    ensures Inv(cfg, CheckPool(s).0)
    ensures CheckPool(s).1.Some? ==> Sound(cfg, CheckPool(s).1.value, s.entries)
  {
    hide Sound, EntriesOk, Merges, AllSigned, FinalTx;
    NullKeeps(cfg);
    FinalMerges(s.entries);
    if s.state == Signing && AllSigned(s.entries) {
      CommitIsSound(cfg, s);
    }
  }

  lemma CommitIsSound(cfg: Config, s: Session)
    requires cfg.Ok() && Inv(cfg, s) && s.state == Signing && AllSigned(s.entries)
    ensures Sound(cfg, s.final, s.entries)
  {
    hide EntriesOk, Merges, NamedOnce, AllSigned, Distinct, Ready;
    MergeConserves(cfg, s.final, s.entries);
    SignedDistinct(cfg, s.final, s.entries);
    MergeOutpointsIff(cfg, s.final, s.entries);
    PaysWorthIff(cfg, s.final, s.entries);
  }

  lemma AcceptKeeps(cfg: Config, s: Session, j: Join)
    requires cfg.Ok() && Inv(cfg, s)
    ensures Inv(cfg, Accept(cfg, s, j).0)
  {
    var room := cfg.maxPool - cfg.minPool + 1;
    assert 0 <= j.rndMax % room < room;
  }

  lemma {:induction false} ScriptsOk(outs: seq<TxOut>)
    ensures ScriptReply(outs).None? <==> forall i :: 0 <= i < |outs| ==> IsP2PKH(outs[i].script)
    ensures ScriptReply(outs).Some? ==> ScriptReply(outs).value in {NonStandardKey, BadScript}
  {
    if outs != [] {
      ScriptsOk(outs[1..]);
      assert outs == [outs[0]] + outs[1..];
      assert forall i :: 0 < i < |outs| ==> outs[i] == outs[1..][i - 1];
      if ScriptReply(outs).None? {
        assert forall i :: 0 <= i < |outs| - 1 ==> IsP2PKH(outs[1..][i].script);
      }
    }
  }

  lemma AddedEntryOk(cfg: Config, s: Session, m: Submission)
    requires SubmitReply(cfg, s, m) == Added
    ensures Ready(s) && |s.entries| < s.maxParticipants
    ensures EntryOk(cfg, EntryOf(m))
    ensures forall k :: 0 <= k < |s.entries| ==> Agree(s.entries[k], EntryOf(m))
  {
    ScriptsOk(m.outs);
    var e := EntryOf(m);
    assert Ins(e) == m.ins;
    forall k | 0 <= k < |s.entries| ensures Agree(s.entries[k], e) {
      assert !Shares(e, s.entries[k]);
      assert Mask(s.entries[k].outs) == Mask(m.outs);
    }
  }

  lemma AddedKeeps(cfg: Config, s: Session, m: Submission)
    requires Inv(cfg, s) && SubmitReply(cfg, s, m) == Added
    ensures Inv(cfg, s.(entries := s.entries + [EntryOf(m)]))
  {
    hide EntryOf, EntryOk, Agree;
    AddedEntryOk(cfg, s, m);
  }

  lemma SubmitKeeps(cfg: Config, s: Session, m: Submission)
    requires cfg.Ok() && Inv(cfg, s)
    ensures Inv(cfg, Submit(cfg, s, m).0)
    ensures Submit(cfg, s, m).1.None?
  {
    hide EntryOf, EntriesOk, Sound, SubmitReply;
    if SubmitReply(cfg, s, m) == Added {
      AddedEntryOk(cfg, s, m);
      AddedKeeps(cfg, s, m);
      CheckPoolKeeps(cfg, s.(entries := s.entries + [EntryOf(m)]));
    }
  }

  // ---------------------------------------------------------------- signing

  /** The same entry but for signatures. */
  predicate SameEntry(a: Entry, b: Entry) {
    && a.outs == b.outs && a.collateral == b.collateral && |a.ins| == |b.ins|
    && forall i :: 0 <= i < |a.ins| ==> BareOf(a.ins[i].txin) == BareOf(b.ins[i].txin)
  }

  predicate SameEntries(a: seq<Entry>, b: seq<Entry>) {
    |a| == |b| && forall k :: 0 <= k < |a| ==> SameEntry(a[k], b[k])
  }

  lemma {:induction false} SignEntryEffect(e: Entry, x: TxIn, from: nat)
    requires from <= |e.ins| && FirstSigned(e)
    requires forall i :: 0 <= i < from ==> !Matches(e.ins[i].txin, x)
    ensures var r := SignEntry(e, x, from);
            r.Some? ==> SameEntry(e, r.value) && FirstSigned(r.value)
    decreases |e.ins| - from
  {
    if from < |e.ins| && !Matches(e.ins[from].txin, x) { SignEntryEffect(e, x, from + 1); }
  }

  lemma {:induction false} SignEntriesEffect(cfg: Config, es: seq<Entry>, x: TxIn, from: nat)
    requires from <= |es| && EntriesOk(cfg, es)
    ensures var r := SignEntries(es, x, from);
            r.Some? ==> |r.value| == |es| && SameEntries(es, r.value) && forall k :: 0 <= k < |r.value| ==> FirstSigned(r.value[k])
    decreases |es| - from
  {
    hide Agree, SignEntry, Mask, SumIn, SumOut, Bares, IsP2PKH, FirstSigned;
    if from < |es| {
      assert EntryOk(cfg, es[from]);
      SignEntryEffect(es[from], x, 0);
      if SignEntry(es[from], x, 0).None? {
        SignEntriesEffect(cfg, es, x, from + 1);
      } else {
        assert forall k :: 0 <= k < |es| ==> EntryOk(cfg, es[k]);
      }
    }
  }

  lemma SameKeepsOk(cfg: Config, a: seq<Entry>, b: seq<Entry>)
    requires EntriesOk(cfg, a) && SameEntries(a, b)
    requires forall k :: 0 <= k < |b| ==> FirstSigned(b[k])
    ensures EntriesOk(cfg, b)
  {
    forall k | 0 <= k < |b| ensures EntryOk(cfg, b[k]) {
      assert EntryOk(cfg, a[k]) && SameEntry(a[k], b[k]);
      assert Bares(Ins(a[k])) == Bares(Ins(b[k]));
    }
    forall k, l | 0 <= k < l < |b| ensures Agree(b[k], b[l]) {
      assert Agree(a[k], a[l]) && SameEntry(a[k], b[k]) && SameEntry(a[l], b[l]);
      if Shares(b[k], b[l]) { SameShares(a[k], b[k], a[l], b[l]); }
      if Shares(b[l], b[k]) { SameShares(a[l], b[l], a[k], b[k]); }
    }
  }

  lemma SameShares(a: Entry, b: Entry, c: Entry, d: Entry)
    requires SameEntry(a, b) && SameEntry(c, d) && Shares(b, d)
    ensures Shares(a, c)
  {
    var i, j :| 0 <= i < |b.ins| && 0 <= j < |d.ins| && b.ins[i].txin.prevout == d.ins[j].txin.prevout;
    assert BareOf(a.ins[i].txin) == BareOf(b.ins[i].txin) && BareOf(c.ins[j].txin) == BareOf(d.ins[j].txin);
  }

  lemma {:induction false} SameMerge(a: seq<Entry>, b: seq<Entry>)
    requires SameEntries(a, b)
    ensures Bares(AllIns(a)) == Bares(AllIns(b)) && AllOuts(a) == AllOuts(b)
  {
    if a != [] {
      var n := |a| - 1;
      SameMerge(a[..n], b[..n]);
      assert SameEntry(a[n], b[n]);
      assert Bares(Ins(a[n])) == Bares(Ins(b[n]));
      assert Bares(AllIns(a)) == Bares(AllIns(a[..n])) + Bares(Ins(a[n]));
      assert Bares(AllIns(b)) == Bares(AllIns(b[..n])) + Bares(Ins(b[n]));
    }
  }

  lemma SignFinalSame(vin: seq<TxIn>, x: TxIn)
    ensures Bares(SignFinal(vin, x)) == Bares(vin)
    ensures Ordered(vin, InLess) ==> Ordered(SignFinal(vin, x), InLess)
  {
    var w := SignFinal(vin, x);
    assert forall i :: 0 <= i < |vin| ==> BareOf(w[i]) == BareOf(vin[i]);
    if Ordered(vin, InLess) {
      forall i | 0 < i < |w| ensures !InLess(w[i], w[i - 1]) { assert !InLess(vin[i], vin[i - 1]); }
    }
  }

  /** Two sessions that differ in signatures only. */
  ghost predicate Frozen(s: Session, t: Session) {
    && t == s.(entries := t.entries, final := t.final)
    && SameEntries(s.entries, t.entries)
    && Bares(t.final.vin) == Bares(s.final.vin) && t.final.vout == s.final.vout
  }

  lemma SelfFrozen(s: Session)
    ensures Frozen(s, s)
  {}

  lemma AddSigKeeps(cfg: Config, s: Session, x: TxIn, valid: bool)
    requires Inv(cfg, s)
    ensures var t := AddSig(s, x, valid).0; Inv(cfg, t) && Frozen(s, t)
  {
    hide EntriesOk, SameEntries, Bares, SignEntries, SignFinal, Ordered;
    SelfFrozen(s);
    SignFinalSame(s.final.vin, x);
    SignEntriesEffect(cfg, s.entries, x, 0);
    var r := SignEntries(s.entries, x, 0);
    if r.Some? {
      SameKeepsOk(cfg, s.entries, r.value);
      SameMerge(s.entries, r.value);
    }
  }

  lemma {:induction false} AddSigsKeeps(cfg: Config, s: Session, xs: seq<(TxIn, bool)>)
    requires Inv(cfg, s)
    ensures var t := AddSigs(s, xs).0; Inv(cfg, t) && Frozen(s, t)
    decreases |xs|
  {
    if xs != [] {
      var (t, ok) := AddSig(s, xs[0].0, xs[0].1);
      AddSigKeeps(cfg, s, xs[0].0, xs[0].1);
      if ok {
        AddSigsKeeps(cfg, t, xs[1..]);
        FrozenTransitive(s, t, AddSigs(t, xs[1..]).0);
      }
    }
  }

  lemma FrozenTransitive(a: Session, b: Session, c: Session)
    requires Frozen(a, b) && Frozen(b, c)
    ensures Frozen(a, c)
  {
    forall k | 0 <= k < |a.entries| ensures SameEntry(a.entries[k], c.entries[k]) {
      assert SameEntry(a.entries[k], b.entries[k]) && SameEntry(b.entries[k], c.entries[k]);
    }
  }

  lemma SignKeeps(cfg: Config, s: Session, xs: seq<(TxIn, bool)>)
    requires cfg.Ok() && Inv(cfg, s)
    ensures Inv(cfg, Sign(s, xs).0)
    ensures Sign(s, xs).1.Some? ==> Sound(cfg, Sign(s, xs).1.value, AddSigs(s, xs).0.entries)
  {
    hide Sound, CheckPool;
    AddSigsKeeps(cfg, s, xs);
    var (t, ok) := AddSigs(s, xs);
    if ok { CheckPoolKeeps(cfg, t); }
  }

  // ---------------------------------------------------------------- runs

  datatype Event =
    | Accepts(join: Join)
    | Submits(submission: Submission)
    | Signs(sigs: seq<(TxIn, bool)>)
    | Timeout(timedOut: bool)
    | Completes
    | Disconnects

  function Step(cfg: Config, s: Session, ev: Event): (Session, Option<Tx>)
    requires cfg.Ok()
  {
    match ev
    case Accepts(j) => (Accept(cfg, s, j).0, None)
    case Submits(m) => Submit(cfg, s, m)
    case Signs(xs) => Sign(s, xs)
    case Timeout(timedOut) => CheckTimeout(cfg, s, timedOut)
    case Completes => (CheckComplete(s), None)
    case Disconnects => (AllGone(s), None)
  }

  /** The entries of the session as they are when the step hands a transaction over. */
  function Merged(s: Session, ev: Event): seq<Entry> { if ev.Signs? then AddSigs(s, ev.sigs).0.entries else s.entries }

  lemma StepKeeps(cfg: Config, s: Session, ev: Event)
    requires cfg.Ok() && Inv(cfg, s)
    ensures Inv(cfg, Step(cfg, s, ev).0)
    ensures Step(cfg, s, ev).1.Some? ==> ev.Signs? && Sound(cfg, Step(cfg, s, ev).1.value, Merged(s, ev))
  {
    hide Sound, EntriesOk, Merges, Accept, Submit, Sign;
    NullKeeps(cfg);
    match ev {
      case Accepts(j) => AcceptKeeps(cfg, s, j);
      case Submits(m) => SubmitKeeps(cfg, s, m);
      case Signs(xs) => SignKeeps(cfg, s, xs);
      case Timeout(_) =>
        if s.state == Accepting && |s.entries| >= cfg.minPool {
          CheckPoolKeeps(cfg, s.(maxParticipants := |s.entries|));
        }
      case Completes =>
      case Disconnects =>
    }
  }

  /** A transaction handed to the memory pool, and the session's entries at that moment. */
  datatype Broadcast = Broadcast(tx: Tx, entries: seq<Entry>)

  /** The session after a run from nothing, and everything handed over on the way. */
  function Run(cfg: Config, evs: seq<Event>): (Session, seq<Broadcast>)
    requires cfg.Ok()
  {
    if evs == [] then (NULL_SESSION, [])
    else
      var (s, out) := Run(cfg, evs[..|evs| - 1]);
      var ev := evs[|evs| - 1];
      var (t, tx) := Step(cfg, s, ev);
      (t, if tx.Some? then out + [Broadcast(tx.value, Merged(s, ev))] else out)
  }

  lemma RunStep(cfg: Config, evs: seq<Event>)
    requires cfg.Ok() && evs != []
    ensures var s, ev := Run(cfg, evs[..|evs| - 1]).0, evs[|evs| - 1];
            && Run(cfg, evs).0 == Step(cfg, s, ev).0
            && Run(cfg, evs).1 == Run(cfg, evs[..|evs| - 1]).1
                                  + if Step(cfg, s, ev).1.Some? then [Broadcast(Step(cfg, s, ev).1.value, Merged(s, ev))] else []
  {}

  /** The invariant holds whatever clients send, in any order. */
  lemma {:induction false} RunKeeps(cfg: Config, evs: seq<Event>)
    requires cfg.Ok()
    ensures Inv(cfg, Run(cfg, evs).0)
  {
    hide Step;
    if evs != [] {
      RunKeeps(cfg, evs[..|evs| - 1]);
      RunStep(cfg, evs);
      StepKeeps(cfg, Run(cfg, evs[..|evs| - 1]).0, evs[|evs| - 1]);
    }
  }

  /** `e` came with an accepted submission of the run, and has changed in signatures only. */
  ghost predicate Submitted(cfg: Config, evs: seq<Event>, e: Entry)
    requires cfg.Ok()
  {
    exists i :: 0 <= i < |evs| && SubmittedAt(cfg, evs, i, e)
  }

  ghost predicate SubmittedAt(cfg: Config, evs: seq<Event>, i: nat, e: Entry)
    requires cfg.Ok() && i < |evs|
  {
    && evs[i].Submits? && SubmitReply(cfg, Run(cfg, evs[..i]).0, evs[i].submission) == Added
    && SameEntry(EntryOf(evs[i].submission), e)
  }

  ghost predicate AllSubmitted(cfg: Config, evs: seq<Event>, es: seq<Entry>)
    requires cfg.Ok()
  {
    forall k :: 0 <= k < |es| ==> Submitted(cfg, evs, es[k])
  }

  lemma SubmittedLater(cfg: Config, evs: seq<Event>, e: Entry, f: Entry)
    requires cfg.Ok() && evs != [] && Submitted(cfg, evs[..|evs| - 1], e) && SameEntry(e, f)
    ensures Submitted(cfg, evs, f)
  {
    hide Run, SubmitReply, EntryOf;
    var before := evs[..|evs| - 1];
    var i :| 0 <= i < |before| && SubmittedAt(cfg, before, i, e);
    assert before[..i] == evs[..i];
    assert SubmittedAt(cfg, evs, i, f);
  }

  lemma SubmittedSame(cfg: Config, evs: seq<Event>, a: seq<Entry>, b: seq<Entry>)
    requires cfg.Ok() && evs != [] && AllSubmitted(cfg, evs[..|evs| - 1], a) && SameEntries(a, b)
    ensures AllSubmitted(cfg, evs, b)
  {
    hide Submitted;
    forall k | 0 <= k < |b| ensures Submitted(cfg, evs, b[k]) { SubmittedLater(cfg, evs, a[k], b[k]); }
  }

  /** What a step does to the entries. */
  lemma EntriesAfter(cfg: Config, s: Session, ev: Event)
    requires cfg.Ok() && Inv(cfg, s)
    ensures var es := Step(cfg, s, ev).0.entries;
            || es == [] || SameEntries(s.entries, es)
            || (ev.Submits? && SubmitReply(cfg, s, ev.submission) == Added && es == s.entries + [EntryOf(ev.submission)])
    ensures ev.Signs? ==> SameEntries(s.entries, Merged(s, ev))
  {
    hide EntriesOk, Merges, Mask, ScriptReply, SubmitReply, EntryOf;
    SelfFrozen(s);
    match ev {
      case Signs(xs) => AddSigsKeeps(cfg, s, xs);
      case _ =>
    }
  }

  lemma {:induction false} EntriesSubmitted(cfg: Config, evs: seq<Event>)
    requires cfg.Ok()
    ensures AllSubmitted(cfg, evs, Run(cfg, evs).0.entries)
  {
    hide Step, Submitted, SubmitReply, EntryOf, Inv, SameEntry;
    if evs != [] {
      var n := |evs| - 1;
      var before, ev := evs[..n], evs[n];
      var s := Run(cfg, before).0;
      EntriesSubmitted(cfg, before);
      RunKeeps(cfg, before);
      RunStep(cfg, evs);
      EntriesAfter(cfg, s, ev);
      SameAsSelf(s.entries);
      SubmittedSame(cfg, evs, s.entries, s.entries);
      if ev.Submits? && SubmitReply(cfg, s, ev.submission) == Added { JustSubmitted(cfg, evs); }
      if SameEntries(s.entries, Run(cfg, evs).0.entries) { SubmittedSame(cfg, evs, s.entries, Run(cfg, evs).0.entries); }
    }
  }

  lemma SameAsSelf(es: seq<Entry>)
    ensures SameEntries(es, es)
  {}

  lemma JustSubmitted(cfg: Config, evs: seq<Event>)
    requires cfg.Ok() && evs != [] && evs[|evs| - 1].Submits?
    requires SubmitReply(cfg, Run(cfg, evs[..|evs| - 1]).0, evs[|evs| - 1].submission) == Added
    ensures Submitted(cfg, evs, EntryOf(evs[|evs| - 1].submission))
  {
    hide Run, SubmitReply;
    assert SubmittedAt(cfg, evs, |evs| - 1, EntryOf(evs[|evs| - 1].submission));
  }

  // ---------------------------------------------------------------- signatures

  /** No entry lists an outpoint twice under one sequence. */
  ghost predicate ListedOnce(es: seq<Entry>) { forall k :: 0 <= k < |es| ==> Distinct(Bares(Ins(es[k]))) }

  lemma SameListedOnce(a: seq<Entry>, b: seq<Entry>)
    requires SameEntries(a, b) && ListedOnce(a)
    ensures ListedOnce(b)
  {
    forall k | 0 <= k < |b| ensures Distinct(Bares(Ins(b[k]))) {
      assert SameEntry(a[k], b[k]);
      assert Bares(Ins(a[k])) == Bares(Ins(b[k]));
    }
  }

  lemma MergedListedOnce(cfg: Config, a: seq<Entry>, b: seq<Entry>)
    requires SameEntries(a, b) && EntriesOk(cfg, b) && AllSigned(b)
    ensures ListedOnce(a)
  {
    forall k | 0 <= k < |b| ensures Distinct(Bares(Ins(b[k]))) {
      assert FirstSigned(b[k]) by { assert EntryOk(cfg, b[k]); }
    }
    assert SameEntries(b, a);
    SameListedOnce(b, a);
  }

  predicate SignedAt(a: seq<Entry>, b: seq<Entry>, x: TxIn, k: nat, i: nat) {
    && k < |a| && i < |a[k].ins| && Matches(a[k].ins[i].txin, x) && !a[k].ins[i].signed
    && b == a[k := a[k].(ins := a[k].ins[i := DsIn(a[k].ins[i].txin.(sig := x.sig), true)])]
  }

  lemma {:induction false} SignEntryExact(e: Entry, x: TxIn, from: nat) returns (i: nat)
    requires from <= |e.ins| && SignEntry(e, x, from).Some?
    ensures i < |e.ins| && Matches(e.ins[i].txin, x) && !e.ins[i].signed
    ensures SignEntry(e, x, from).value == e.(ins := e.ins[i := DsIn(e.ins[i].txin.(sig := x.sig), true)])
    decreases |e.ins| - from
  {
    if Matches(e.ins[from].txin, x) { i := from; } else { i := SignEntryExact(e, x, from + 1); }
  }

  lemma {:induction false} SignEntriesExact(es: seq<Entry>, x: TxIn, from: nat) returns (k: nat, i: nat)
    requires from <= |es| && SignEntries(es, x, from).Some?
    ensures SignedAt(es, SignEntries(es, x, from).value, x, k, i)
    decreases |es| - from
  {
    if SignEntry(es[from], x, 0).Some? {
      k := from;
      i := SignEntryExact(es[from], x, 0);
    } else {
      k, i := SignEntriesExact(es, x, from + 1);
    }
  }

  /** An accepted signature is new and passed the script check; it signs one matching input of the entries that was not
    * signed, every matching input of the final transaction carries it, and nothing else changes.
    */
  lemma AddSigExact(s: Session, x: TxIn, valid: bool)
    ensures var (t, ok) := AddSig(s, x, valid);
            && t == s.(entries := t.entries, final := s.final.(vin := t.final.vin)) && |t.final.vin| == |s.final.vin|
            && (ok ==> valid && !SigKnown(s.entries, x.sig) && exists k, i :: SignedAt(s.entries, t.entries, x, k, i))
            && (!ok ==> t.entries == s.entries && (!valid ==> t == s))
            && (forall n :: 0 <= n < |s.final.vin| ==>
                  t.final.vin[n] == if t != s && Matches(s.final.vin[n], x) then s.final.vin[n].(sig := x.sig) else s.final.vin[n])
            && (ok ==> forall n :: 0 <= n < |t.final.vin| && Matches(t.final.vin[n], x) ==> t.final.vin[n].sig == x.sig)
  {
    hide SigKnown, InputKnown, SignEntries, SignedAt;
    if AddSig(s, x, valid).1 {
      var k, i := SignEntriesExact(s.entries, x, 0);
    }
  }

  /** The event gives a valid signature for `y`, and it is the one that `y` carries. */
  predicate GivenAt(ev: Event, k: int, y: TxIn) {
    ev.Signs? && 0 <= k < |ev.sigs| && ev.sigs[k].1 && Matches(ev.sigs[k].0, y) && ev.sigs[k].0.sig == y.sig
  }

  /** `y` carries a signature that came in the run and passed the script check. */
  ghost predicate Given(evs: seq<Event>, y: TxIn) {
    exists j, k :: 0 <= j < |evs| && GivenAt(evs[j], k, y)
  }

  ghost function AllGiven(evs: seq<Event>): iset<TxIn> { iset y | Given(evs, y) }

  /** Signed inputs carry good signatures, in the entries and, unless an input is repeated, in the final transaction. */
  ghost predicate Carried(s: Session, good: iset<TxIn>) {
    && (forall k, i :: 0 <= k < |s.entries| && 0 <= i < |s.entries[k].ins| && s.entries[k].ins[i].signed ==>
          s.entries[k].ins[i].txin in good)
    && (ListedOnce(s.entries) ==> forall k, i, n :: CarriesAt(s, k, i, n) ==> s.final.vin[n] in good)
  }

  /** Input `n` of the final transaction is input `i` of entry `k`, which is signed. */
  predicate CarriesAt(s: Session, k: int, i: int, n: int) {
    && 0 <= k < |s.entries| && 0 <= i < |s.entries[k].ins| && s.entries[k].ins[i].signed
    && 0 <= n < |s.final.vin| && Matches(s.entries[k].ins[i].txin, s.final.vin[n])
  }

  lemma AddSigCarries(s: Session, x: TxIn, valid: bool, good: iset<TxIn>)
    requires Carried(s, good) && (valid ==> forall y :: Matches(x, y) && x.sig == y.sig ==> y in good)
    ensures Carried(AddSig(s, x, valid).0, good)
  {
    hide ListedOnce, AddSig;
    AddSigExact(s, x, valid);
    var (t, ok) := AddSig(s, x, valid);
    if ok {
      var k0, i0 :| SignedAt(s.entries, t.entries, x, k0, i0);
      SignedAtSame(s.entries, t.entries, x, k0, i0);
      SameAsSelf(t.entries);
      if ListedOnce(t.entries) { SameListedOnce(t.entries, s.entries); }
      forall k, i, n | CarriesAt(t, k, i, n) && !Matches(s.final.vin[n], x) ensures t.final.vin[n] == s.final.vin[n] && CarriesAt(s, k, i, n) {}
    } else {
      forall k, i, n | CarriesAt(t, k, i, n) && !(t != s && Matches(s.final.vin[n], x)) ensures CarriesAt(s, k, i, n) {}
    }
  }

  lemma SignedAtSame(a: seq<Entry>, b: seq<Entry>, x: TxIn, k: nat, i: nat)
    requires SignedAt(a, b, x, k, i)
    ensures SameEntries(b, a)
  {}

  lemma {:induction false} AddSigsCarry(s: Session, xs: seq<(TxIn, bool)>, good: iset<TxIn>)
    requires Carried(s, good)
    requires forall k, y :: 0 <= k < |xs| && xs[k].1 && Matches(xs[k].0, y) && xs[k].0.sig == y.sig ==> y in good
    ensures Carried(AddSigs(s, xs).0, good)
    decreases |xs|
  {
    hide Carried, AddSig;
    if xs != [] {
      AddSigCarries(s, xs[0].0, xs[0].1, good);
      var rest := xs[1..];
      assert forall k :: 0 <= k < |rest| ==> rest[k] == xs[k + 1];
      AddSigsCarry(AddSig(s, xs[0].0, xs[0].1).0, rest, good);
    }
  }

  /** In a new final transaction a signed input is the entry's own. */
  lemma FinalCarries(cfg: Config, s: Session, good: iset<TxIn>)
    requires EntriesOk(cfg, s.entries) && Carried(s.(final := Tx([], [])), good)
    ensures Carried(s.(final := FinalTx(s.entries)), good)
  {
    hide FinalTx, EntryOk, ListedOnce;
    var t := s.(final := FinalTx(s.entries));
    var before := s.(final := Tx([], []));
    assert t.entries == before.entries;
    if ListedOnce(t.entries) {
      forall k, i, n | CarriesAt(t, k, i, n) ensures t.final.vin[n] in good {
        var l, j := FinalInput(t.entries, n);
        SameInput(cfg, t.entries, k, i, l, j);
      }
    }
  }

  lemma FinalInput(es: seq<Entry>, n: nat) returns (k: nat, i: nat)
    requires n < |FinalTx(es).vin|
    ensures k < |es| && i < |es[k].ins| && es[k].ins[i].txin == FinalTx(es).vin[n]
  {
    SortedPerm(AllIns(es), InLess);
    var y := FinalTx(es).vin[n];
    assert y in multiset(FinalTx(es).vin);
    assert y in AllIns(es);
    var a :| 0 <= a < |AllIns(es)| && AllIns(es)[a] == y;
    k, i := AllInsFrom(es, a);
  }

  lemma SameInput(cfg: Config, es: seq<Entry>, k: nat, i: nat, l: nat, j: nat)
    requires EntriesOk(cfg, es) && ListedOnce(es) && k < |es| && i < |es[k].ins| && l < |es| && j < |es[l].ins|
    requires Matches(es[k].ins[i].txin, es[l].ins[j].txin)
    ensures k == l && i == j
  {
    if k != l {
      InputsApart(cfg, es, k, i, l, j);
    } else if i != j {
      InputsOnce(es, k, i, j);
    }
  }

  lemma InputsApart(cfg: Config, es: seq<Entry>, k: nat, i: nat, l: nat, j: nat)
    requires EntriesOk(cfg, es) && k < |es| && i < |es[k].ins| && l < |es| && j < |es[l].ins| && k != l
    ensures es[k].ins[i].txin.prevout != es[l].ins[j].txin.prevout
  {
    if k < l { assert Agree(es[k], es[l]); } else { assert Agree(es[l], es[k]); }
  }

  lemma InputsOnce(es: seq<Entry>, k: nat, i: nat, j: nat)
    requires ListedOnce(es) && k < |es| && i < |es[k].ins| && j < |es[k].ins| && i != j
    ensures !Matches(es[k].ins[i].txin, es[k].ins[j].txin)
  {
    var xs := Ins(es[k]);
    var a, b := xs[i], xs[j];
    assert Bares(xs)[i] == BareOf(a) && Bares(xs)[j] == BareOf(b);
  }

  /** With every entry signed, every input of the final transaction carries a good signature. */
  lemma AllCarry(cfg: Config, s: Session, good: iset<TxIn>)
    requires Inv(cfg, s) && s.state == Signing && AllSigned(s.entries) && Carried(s, good)
    ensures forall n :: 0 <= n < |s.final.vin| ==> s.final.vin[n] in good
  {
    hide ListedOnce;
    SameAsSelf(s.entries);
    MergedListedOnce(cfg, s.entries, s.entries);
    forall n | 0 <= n < |s.final.vin| ensures s.final.vin[n] in good {
      var k, i := MergedInput(s.final, s.entries, n);
      assert CarriesAt(s, k, i, n);
    }
  }

  lemma MergedInput(tx: Tx, es: seq<Entry>, n: nat) returns (k: nat, i: nat)
    requires Merges(tx, es) && n < |tx.vin|
    ensures k < |es| && i < |es[k].ins| && Matches(es[k].ins[i].txin, tx.vin[n])
  {
    var y, ys := tx.vin[n], AllIns(es);
    assert Bares(tx.vin)[n] == BareOf(y);
    assert BareOf(y) in multiset(Bares(tx.vin));
    assert BareOf(y) in Bares(ys);
    var a :| 0 <= a < |ys| && Bares(ys)[a] == BareOf(y);
    var z := ys[a];
    assert Bares(ys)[a] == BareOf(z);
    k, i := AllInsFrom(es, a);
  }

  lemma CheckPoolCarries(cfg: Config, s: Session, good: iset<TxIn>)
    requires cfg.Ok() && Inv(cfg, s) && Carried(s, good)
    ensures Carried(CheckPool(s).0, good)
    ensures CheckPool(s).1.Some? ==> forall n :: 0 <= n < |CheckPool(s).1.value.vin| ==> CheckPool(s).1.value.vin[n] in good
  {
    hide Carried, FinalTx, AllSigned, EntriesOk, Merges;
    NothingCarried(good);
    if s.state == Accepting && |s.entries| >= s.maxParticipants {
      assert s.(final := Tx([], [])) == s;
      FinalCarries(cfg, s, good);
      CarriedParts(s.(final := FinalTx(s.entries)), CheckPool(s).0, good);
    } else if s.state == Signing && AllSigned(s.entries) {
      AllCarry(cfg, s, good);
    }
  }

  lemma NothingCarried(good: iset<TxIn>)
    ensures Carried(NULL_SESSION, good)
  {}

  /** Only entries and final transaction matter. */
  lemma CarriedParts(s: Session, t: Session, good: iset<TxIn>)
    requires t.entries == s.entries && t.final == s.final
    ensures Carried(s, good) ==> Carried(t, good)
  {
    forall k, i, n | CarriesAt(t, k, i, n) ensures CarriesAt(s, k, i, n) {}
  }

  lemma AddedCarries(s: Session, m: Submission, good: iset<TxIn>)
    requires Carried(s, good) && s.final == Tx([], [])
    ensures Carried(s.(entries := s.entries + [EntryOf(m)]), good)
  {}

  lemma StepCarries(cfg: Config, s: Session, ev: Event, good: iset<TxIn>)
    requires cfg.Ok() && Inv(cfg, s) && Carried(s, good) && forall k, y :: GivenAt(ev, k, y) ==> y in good
    ensures Carried(Step(cfg, s, ev).0, good)
    ensures Step(cfg, s, ev).1.Some? ==> forall n :: 0 <= n < |Step(cfg, s, ev).1.value.vin| ==> Step(cfg, s, ev).1.value.vin[n] in good
  {
    hide Carried, EntriesOk, Merges, AddSigs, CheckPool, SubmitReply, EntryOf;
    NothingCarried(good);
    match ev {
      case Accepts(j) => CarriedParts(s, Accept(cfg, s, j).0, good);
      case Submits(m) =>
        if SubmitReply(cfg, s, m) == Added {
          AddedEntryOk(cfg, s, m);
          AddedKeeps(cfg, s, m);
          AddedCarries(s, m, good);
          CheckPoolCarries(cfg, s.(entries := s.entries + [EntryOf(m)]), good);
        }
      case Signs(xs) =>
        forall k, y | 0 <= k < |xs| && xs[k].1 && Matches(xs[k].0, y) && xs[k].0.sig == y.sig ensures y in good {
          assert GivenAt(ev, k, y);
        }
        AddSigsCarry(s, xs, good);
        AddSigsKeeps(cfg, s, xs);
        CheckPoolCarries(cfg, AddSigs(s, xs).0, good);
      case Timeout(_) =>
        CarriedParts(s, s.(maxParticipants := |s.collaterals|), good);
        if s.state == Accepting && |s.entries| >= cfg.minPool {
          CarriedParts(s, s.(maxParticipants := |s.entries|), good);
          CheckPoolCarries(cfg, s.(maxParticipants := |s.entries|), good);
        }
      case Completes => CarriedParts(s, CheckComplete(s), good);
      case Disconnects =>
    }
  }

  lemma MoreGiven(evs: seq<Event>, ev: Event)
    requires evs != [] && ev == evs[|evs| - 1]
    ensures AllGiven(evs[..|evs| - 1]) <= AllGiven(evs)
    ensures forall k, y :: GivenAt(ev, k, y) ==> y in AllGiven(evs)
  {
    var before := evs[..|evs| - 1];
    forall y | Given(before, y) ensures Given(evs, y) {
      var j, k :| 0 <= j < |before| && GivenAt(before[j], k, y);
      assert GivenAt(evs[j], k, y);
    }
  }

  lemma CarriedMore(s: Session, a: iset<TxIn>, b: iset<TxIn>)
    requires Carried(s, a) && a <= b
    ensures Carried(s, b)
  {}

  /** Every input of a broadcast carries a signature of the run. */
  ghost predicate FullySigned(evs: seq<Event>, tx: Tx) { forall n :: 0 <= n < |tx.vin| ==> Given(evs, tx.vin[n]) }

  lemma SignedLater(evs: seq<Event>, tx: Tx)
    requires evs != [] && FullySigned(evs[..|evs| - 1], tx)
    ensures FullySigned(evs, tx)
  {
    MoreGiven(evs, evs[|evs| - 1]);
    forall n | 0 <= n < |tx.vin| ensures Given(evs, tx.vin[n]) { assert tx.vin[n] in AllGiven(evs[..|evs| - 1]); }
  }

  lemma {:induction false} RunCarries(cfg: Config, evs: seq<Event>)
    requires cfg.Ok()
    ensures Carried(Run(cfg, evs).0, AllGiven(evs))
    ensures forall i :: 0 <= i < |Run(cfg, evs).1| ==> FullySigned(evs, Run(cfg, evs).1[i].tx)
  {
    hide Step, Carried, Inv, Given, GivenAt;
    if evs == [] {
      NothingCarried(AllGiven(evs));
    } else {
      var before, ev := evs[..|evs| - 1], evs[|evs| - 1];
      var s := Run(cfg, before).0;
      RunCarries(cfg, before);
      RunKeeps(cfg, before);
      RunStep(cfg, evs);
      MoreGiven(evs, ev);
      CarriedMore(s, AllGiven(before), AllGiven(evs));
      StepCarries(cfg, s, ev, AllGiven(evs));
      var out := Run(cfg, before).1;
      forall i | 0 <= i < |out| ensures FullySigned(evs, out[i].tx) { SignedLater(evs, out[i].tx); }
    }
  }

  lemma {:induction false} RunMerges(cfg: Config, evs: seq<Event>)
    requires cfg.Ok()
    ensures Inv(cfg, Run(cfg, evs).0)
    ensures forall i :: 0 <= i < |Run(cfg, evs).1| ==> var b := Run(cfg, evs).1[i];
              Sound(cfg, b.tx, b.entries) && AllSubmitted(cfg, evs, b.entries)
  {
    hide Step, Sound, AllSubmitted, Inv, Merged, SameEntries;
    RunKeeps(cfg, evs);
    if evs != [] {
      var before, ev := evs[..|evs| - 1], evs[|evs| - 1];
      var s := Run(cfg, before).0;
      RunMerges(cfg, before);
      RunStep(cfg, evs);
      EntriesSubmitted(cfg, before);
      StepKeeps(cfg, s, ev);
      EntriesAfter(cfg, s, ev);
      if ev.Signs? { SubmittedSame(cfg, evs, s.entries, Merged(s, ev)); }
      var out := Run(cfg, before).1;
      forall i | 0 <= i < |out| ensures AllSubmitted(cfg, evs, out[i].entries) {
        SameAsSelf(out[i].entries);
        SubmittedSame(cfg, evs, out[i].entries, out[i].entries);
      }
    }
  }

  /** Whatever clients send, in any order: every broadcast is a sound merge of accepted submissions of the run, and each of
    * its inputs carries a signature that came in the run and passed the script check.
    */
  lemma RunIsSound(cfg: Config, evs: seq<Event>)
    requires cfg.Ok()
    ensures Inv(cfg, Run(cfg, evs).0)
    ensures forall i :: 0 <= i < |Run(cfg, evs).1| ==> var b := Run(cfg, evs).1[i];
              Sound(cfg, b.tx, b.entries) && AllSubmitted(cfg, evs, b.entries) && FullySigned(evs, b.tx)
  {
    RunCarries(cfg, evs);
    RunMerges(cfg, evs);
  }

  lemma FullRefuses(cfg: Config, s: Session, m: Submission)
    requires |s.entries| >= s.maxParticipants
    ensures Submit(cfg, s, m) == (s, None)
  {
    ScriptsOk(m.outs);
  }

  lemma ReadyRefuses(cfg: Config, s: Session, j: Join)
    requires cfg.Ok() && Ready(s)
    ensures Accept(cfg, s, j).0 == s
  {}

  /** While signatures are collected nothing but signatures changes, until the session ends. */
  lemma SigningIsFrozen(cfg: Config, s: Session, ev: Event)
    requires cfg.Ok() && Inv(cfg, s) && s.state == Signing
    ensures var t := Step(cfg, s, ev).0; t == NULL_SESSION || Frozen(s, t)
  {
    hide EntriesOk, Merges, Accept, Mask, ScriptReply;
    SelfFrozen(s);
    match ev {
      case Signs(xs) => AddSigsKeeps(cfg, s, xs);
      case Submits(m) => FullRefuses(cfg, s, m);
      case Accepts(j) => ReadyRefuses(cfg, s, j);
      case _ =>
    }
  }

  // ---------------------------------------------------------------- charging

  lemma {:induction false} SilentMember(collaterals: seq<int>, es: seq<Entry>, c: int)
    ensures c in Silent(collaterals, es) <==> c in collaterals && forall k :: 0 <= k < |es| ==> es[k].collateral != c
  {
    if collaterals != [] {
      SilentMember(collaterals[1..], es, c);
      assert collaterals == [collaterals[0]] + collaterals[1..];
    }
  }

  lemma {:induction false} UnsignedOfMember(ins: seq<DsIn>, collateral: int, c: int)
    ensures c in UnsignedOf(ins, collateral) <==> c == collateral && exists i :: 0 <= i < |ins| && !ins[i].signed
  {
    if ins != [] {
      UnsignedOfMember(ins[1..], collateral, c);
      assert ins == [ins[0]] + ins[1..];
    }
  }

  predicate LeftUnsigned(e: Entry) { exists i :: 0 <= i < |e.ins| && !e.ins[i].signed }

  lemma {:induction false} UnsignedMember(es: seq<Entry>, c: int)
    ensures c in Unsigned(es) <==> exists k :: 0 <= k < |es| && es[k].collateral == c && LeftUnsigned(es[k])
  {
    if es != [] {
      UnsignedMember(es[1..], c);
      UnsignedOfMember(es[0].ins, es[0].collateral, c);
      assert es == [es[0]] + es[1..];
    }
  }

  /** Only a participant who did not submit, or did not sign, is ever charged. */
  lemma ChargedIsOffender(s: Session, dice: (nat, nat), shuffled: seq<int>)
    requires multiset(shuffled) == multiset(Offenders(s)) && Charged(s, dice, shuffled).Some?
    ensures s.state in {Accepting, Signing}
    ensures var c := Charged(s, dice, shuffled).value;
            if s.state == Accepting then c in s.collaterals && forall k :: 0 <= k < |s.entries| ==> s.entries[k].collateral != c
            else exists k :: 0 <= k < |s.entries| && s.entries[k].collateral == c && LeftUnsigned(s.entries[k])
  {
    var c := Charged(s, dice, shuffled).value;
    assert |multiset(shuffled)| == |Offenders(s)|;
    assert c in multiset(shuffled);
    assert c in Offenders(s);
    SilentMember(s.collaterals, s.entries, c);
    UnsignedMember(s.entries, c);
  }
}
