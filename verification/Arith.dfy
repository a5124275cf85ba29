/** Powers of two, and numbers held in 32-bit limbs, least significant first. */
module Arith {
  const BASE := 0x1_0000_0000
  const WIDTH := 8

  function Pow2(n: nat): (p: nat)
    ensures p >= 1
  {
    if n == 0 then 1 else 2 * Pow2(n - 1)
  }

  lemma Pow2Step(n: nat)
    ensures Pow2(0) == 1 && Pow2(n + 1) == 2 * Pow2(n)
  {}

  lemma Double(x: int, y: int)
    ensures x * (2 * y) == 2 * (x * y)
  {}

  lemma {:induction false} Pow2Add(a: nat, b: nat)
    ensures Pow2(a + b) == Pow2(a) * Pow2(b)
  {
    hide Pow2;
    Pow2Step(0);
    if b > 0 {
      Pow2Add(a, b - 1);
      Pow2Step(a + b - 1);
      Pow2Step(b - 1);
      Double(Pow2(a), Pow2(b - 1));
    }
  }

  lemma Pow2Of32()
    ensures Pow2(32) == BASE
  {
    assert Pow2(8) == 256 by { assert Pow2(4) == 16; }
    Pow2Add(8, 8);
    Pow2Add(16, 16);
  }

  lemma {:induction false} Pow2Monotone(a: nat, b: nat)
    requires a <= b
    ensures Pow2(a) <= Pow2(b)
  {
    if a < b { Pow2Monotone(a, b - 1); }
  }

  // ---------------------------------------------------------------- products

  lemma MulOrder(a: int, b: int, m: nat)
    requires a <= b
    ensures a * m <= b * m
  {
    assert b * m == a * m + (b - a) * m;
  }

  function Quotient(m: nat, p: nat): nat
    requires p >= 1
  {
    m / p
  }

  /** A number is told by its quotient and remainder. */
  lemma DivModUnique(v: int, m: nat, q: int, r: nat)
    requires m >= 1 && r < m && v == q * m + r
    ensures v / m == q && v % m == r
  {
    var q2, r2 := v / m, v % m;
    assert v == q2 * m + r2;
    assert (q - q2) * m == r2 - r;
    if q > q2 { MulOrder(1, q - q2, m); }
    assert (q2 - q) * m == r - r2;
    if q < q2 { MulOrder(1, q2 - q, m); }
  }

  lemma QuotientBelow(v: nat, p: nat, n: nat)
    requires p >= 1 && v < p * n
    ensures v / p < n
  {
    assert v == v / p * p + v % p;
    if v / p >= n { MulOrder(n, v / p, p); }
  }

  // ---------------------------------------------------------------- limbs

  predicate Words(a: seq<nat>) { forall i :: 0 <= i < |a| ==> a[i] < BASE }

  /** A 256-bit number as the code holds it. */
  predicate Limbs(a: seq<nat>) { |a| == WIDTH && Words(a) }

  function Weight(i: nat): (w: nat)
    ensures w >= 1
  {
    Pow2(32 * i)
  }

  function Val(a: seq<nat>): nat { if a == [] then 0 else Val(a[..|a| - 1]) + a[|a| - 1] * Weight(|a| - 1) }

  const ZERO: seq<nat> := [0, 0, 0, 0, 0, 0, 0, 0]

  lemma WeightNext(i: nat)
    ensures Weight(i + 1) == BASE * Weight(i)
  {
    Pow2Of32();
    Pow2Add(32 * i, 32);
  }

  lemma ValNext(a: seq<nat>, i: nat)
    requires i < |a|
    ensures Val(a[..i + 1]) == Val(a[..i]) + a[i] * Weight(i)
  {
    assert a[..i + 1][..i] == a[..i];
  }

  lemma {:induction false} ValBelow(a: seq<nat>)
    requires Words(a)
    ensures Val(a) < Weight(|a|)
  {
    if a != [] {
      var n := |a| - 1;
      ValBelow(a[..n]);
      WeightNext(n);
      MulOrder(a[n], BASE - 1, Weight(n));
      assert (BASE - 1) * Weight(n) == BASE * Weight(n) - Weight(n);
    }
  }

  lemma {:induction false} ValUpdate(a: seq<nat>, i: nat, x: nat)
    requires i < |a|
    ensures Val(a[i := x]) == Val(a) + (x - a[i]) * Weight(i)
    decreases |a|
  {
    var n, b := |a| - 1, a[i := x];
    if i == n {
      assert b[..n] == a[..n];
      assert x * Weight(n) == a[n] * Weight(n) + (x - a[n]) * Weight(n);
    } else {
      assert b[..n] == a[..n][i := x];
      ValUpdate(a[..n], i, x);
    }
  }

  lemma {:induction false} ValZeros(a: seq<nat>)
    requires forall i :: 0 <= i < |a| ==> a[i] == 0
    ensures Val(a) == 0
  {
    if a != [] { ValZeros(a[..|a| - 1]); }
  }

  /** The limbs decide the number and the number the limbs. */
  lemma {:induction false} ValInjective(a: seq<nat>, b: seq<nat>)
    requires |a| == |b| && Words(a) && Words(b) && Val(a) == Val(b)
    ensures a == b
  {
    if a != [] {
      var n := |a| - 1;
      ValBelow(a[..n]);
      ValBelow(b[..n]);
      DivModUnique(Val(a), Weight(n), a[n], Val(a[..n]));
      DivModUnique(Val(b), Weight(n), b[n], Val(b[..n]));
      ValInjective(a[..n], b[..n]);
    }
  }

  const TWO256 := Weight(WIDTH)

  /** A result that is off by a multiple of 2^256 is the remainder. */
  lemma Wrapped(a: seq<nat>, v: int, q: int)
    requires Limbs(a) && Val(a) + q * TWO256 == v
    ensures Val(a) == v % TWO256
  {
    ValBelow(a);
    DivModUnique(v, TWO256, q, Val(a));
  }

  // ---------------------------------------------------------------- bitwise or

  function BitOr(x: nat, y: nat): nat {
    if x == 0 && y == 0 then 0 else (if x % 2 == 1 || y % 2 == 1 then 1 else 0) + 2 * BitOr(x / 2, y / 2)
  }

  lemma {:induction false} OrZero(y: nat)
    ensures BitOr(0, y) == y && BitOr(y, 0) == y
  {
    if y > 0 { OrZero(y / 2); }
  }

  /** Or is a sum when the bits of one lie below the bits of the other. */
  lemma {:induction false} OrDisjoint(x: nat, h: nat, s: nat)
    requires x < Pow2(s)
    ensures BitOr(x, h * Pow2(s)) == x + h * Pow2(s)
    ensures BitOr(h * Pow2(s), x) == x + h * Pow2(s)
    decreases s
  {
    hide Pow2;
    Pow2Step(0);
    if s == 0 {
      OrZero(h);
    } else {
      var z := h * Pow2(s - 1);
      Pow2Step(s - 1);
      Double(h, Pow2(s - 1));
      OrDisjoint(x / 2, h, s - 1);
      OrStep(x, z);
    }
  }

  lemma OrStep(x: nat, z: nat)
    ensures BitOr(x, 2 * z) == x % 2 + 2 * BitOr(x / 2, z)
    ensures BitOr(2 * z, x) == x % 2 + 2 * BitOr(z, x / 2)
  {
    assert 2 * z % 2 == 0 && 2 * z / 2 == z;
  }
}
