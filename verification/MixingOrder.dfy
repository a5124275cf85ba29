/** The order of BIP 69 leaves no choice: entries determine the final transaction, whoever merges them. */
module MixingOrder {
  import opened Prelude
  import opened Mixing
  import opened MixingRun
  import Coins
  import Lex

  /** Any two different elements are ordered, consistently. */
  ghost predicate Total<T(!new)>(less: (T, T) -> bool) {
    && (forall x, y :: x == y || less(x, y) || less(y, x))
    && (forall x, y :: less(x, y) ==> !less(y, x))
    && (forall x, y, z :: less(x, y) && less(y, z) ==> less(x, z))
  }

  lemma Chained<T(!new)>(less: (T, T) -> bool, x: T, y: T, z: T)
    requires Total(less) && !less(y, x) && !less(x, z)
    ensures !less(y, z)
  {
    assert x == y || less(x, y);
  }

  lemma {:induction false} OrderedAll<T(!new)>(xs: seq<T>, less: (T, T) -> bool, i: nat, j: nat)
    requires Total(less) && Ordered(xs, less) && i < j < |xs|
    ensures !less(xs[j], xs[i])
    decreases j
  {
    hide Total;
    if i < j - 1 {
      OrderedAll(xs, less, i, j - 1);
      assert !less(xs[j], xs[j - 1]);
      Chained(less, xs[j - 1], xs[j], xs[i]);
    }
  }

  lemma NotBelowSelf<T(!new)>(less: (T, T) -> bool, x: T)
    requires Total(less)
    ensures !less(x, x)
  {}

  lemma HeadIsLeast<T(!new)>(xs: seq<T>, less: (T, T) -> bool, x: T)
    requires Total(less) && Ordered(xs, less) && x in xs
    ensures !less(x, xs[0])
  {
    hide Total;
    var k :| 0 <= k < |xs| && xs[k] == x;
    if k > 0 { OrderedAll(xs, less, 0, k); } else { NotBelowSelf(less, x); }
  }

  /** Ordered listings of the same elements are the same. */
  lemma {:induction false} OrderedUnique<T(!new)>(a: seq<T>, b: seq<T>, less: (T, T) -> bool)
    requires Total(less) && Ordered(a, less) && Ordered(b, less) && multiset(a) == multiset(b)
    ensures a == b
  {
    hide Total, Ordered;
    if a == [] {
      assert |multiset(b)| == 0;
    } else {
      SameHead(a, b, less);
      assert a == [a[0]] + a[1..] && b == [b[0]] + b[1..];
      assert multiset(a[1..]) == multiset(a) - multiset{a[0]} && multiset(b[1..]) == multiset(b) - multiset{b[0]};
      OrderedTail(a, less);
      OrderedTail(b, less);
      OrderedUnique(a[1..], b[1..], less);
    }
  }

  lemma SameHead<T(!new)>(a: seq<T>, b: seq<T>, less: (T, T) -> bool)
    requires Total(less) && Ordered(a, less) && Ordered(b, less) && multiset(a) == multiset(b) && a != []
    ensures b != [] && a[0] == b[0]
  {
    hide Ordered;
    assert a[0] in multiset(b);
    assert a[0] in b;
    assert b[0] in multiset(a);
    assert b[0] in a;
    HeadIsLeast(a, less, b[0]);
    HeadIsLeast(b, less, a[0]);
  }

  lemma OrderedTail<T(!new)>(xs: seq<T>, less: (T, T) -> bool)
    requires Ordered(xs, less) && xs != []
    ensures Ordered(xs[1..], less)
  {
    var ys := xs[1..];
    forall i | 0 < i < |ys| ensures !less(ys[i], ys[i - 1]) { assert !less(xs[i + 1], xs[i + 1 - 1]); }
  }

  lemma OutputsTotal()
    ensures Total(OutLess)
  {
    forall x: TxOut, y: TxOut ensures x == y || OutLess(x, y) || OutLess(y, x) { Lex.Total(x.script, y.script); }
    forall x: TxOut, y: TxOut | OutLess(x, y) ensures !OutLess(y, x) {
      if x.value == y.value { Lex.Asymmetric(x.script, y.script); }
    }
    forall x: TxOut, y: TxOut, z: TxOut | OutLess(x, y) && OutLess(y, z) ensures OutLess(x, z) {
      if x.value == y.value == z.value { Lex.Transitive(x.script, y.script, z.script); }
    }
  }

  /** Outpoints by transaction, then by index. */
  predicate OutpointLess(a: OutPoint, b: OutPoint) { a.hash < b.hash || (a.hash == b.hash && a.n < b.n) }

  lemma OutpointsTotal()
    ensures Total(OutpointLess)
  {}

  lemma OutpointsOrdered(vin: seq<TxIn>)
    requires Ordered(vin, InLess)
    ensures Ordered(Map(PrevoutOf, vin), OutpointLess)
  {
    var ks := Map(PrevoutOf, vin);
    forall i | 0 < i < |ks| ensures !OutpointLess(ks[i], ks[i - 1]) {
      var x, y := vin[i], vin[i - 1];
      assert ks[i] == PrevoutOf(x) && ks[i - 1] == PrevoutOf(y) && !InLess(x, y);
    }
  }

  /** Two merges of the same entries list the same outputs and the same outpoints, in the same order. */
  lemma MergeIsUnique(a: Tx, b: Tx, es: seq<Entry>)
    requires Merges(a, es) && Merges(b, es)
    ensures a.vout == b.vout && Map(PrevoutOf, a.vin) == Map(PrevoutOf, b.vin)
  {
    OutputsTotal();
    OrderedUnique(a.vout, b.vout, OutLess);
    OutpointsTotal();
    OutpointsOrdered(a.vin);
    OutpointsOrdered(b.vin);
    MapPerm(OutpointOf, Bares(a.vin), Bares(b.vin));
    OutpointsOfBares(a.vin);
    OutpointsOfBares(b.vin);
    OrderedUnique(Map(PrevoutOf, a.vin), Map(PrevoutOf, b.vin), OutpointLess);
  }
}
