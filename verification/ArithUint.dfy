/** 256-bit unsigned arithmetic on eight limbs, each operation against the integer it stands for. */
module ArithUint {
  import opened Arith

  /** One step of a carry chain: adding at limb `i` and passing the carry on loses nothing. */
  lemma Accumulate(p: seq<nat>, i: nat, add: nat)
    requires Words(p) && i < |p|
    ensures var n := p[i] + add;
            Words(p[i := n % BASE]) && Val(p[i := n % BASE]) + n / BASE * Weight(i + 1) == Val(p) + add * Weight(i)
  {
    hide Val, Weight;
    var n, w := p[i] + add, Weight(i);
    var r, c := n % BASE, n / BASE;
    ValUpdate(p, i, r);
    WeightNext(i);
    assert r - p[i] == add - c * BASE;
    assert (r - p[i]) * w == add * w - c * (BASE * w);
  }

  lemma Distribute(x: int, y: int, w: nat)
    ensures (x + y) * w == x * w + y * w
  {}

  class Uint {
    var pn: seq<nat>

    predicate Ok()
      reads this
    {
      Limbs(pn)
    }

    function Value(): nat
      reads this
    {
      Val(pn)
    }

    constructor (b: seq<nat>)
      requires Limbs(b)
      ensures pn == b
    {
      pn := b;
    }

    /** Assignment from a 64-bit number. */
    method SetWord(b: nat)
      requires b < BASE * BASE
      modifies this
      ensures Ok() && Value() == b
    {
      pn := [b % BASE, b / BASE, 0, 0, 0, 0, 0, 0];
      ValOfTwo(pn);
    }

    method Add(b: seq<nat>)
      requires Ok() && Limbs(b)
      modifies this
      ensures Ok() && Value() == (old(Value()) + Val(b)) % TWO256
    {
      hide Val, Weight;
      ghost var a := pn;
      var carry: nat := 0;
      NoLimbs(b);
      for i := 0 to WIDTH
        invariant Ok() && carry <= 1
        invariant Val(pn) + carry * Weight(i) == Val(a) + Val(b[..i])
      {
        var n := carry + pn[i] + b[i];
        Accumulate(pn, i, carry + b[i]);
        ValNext(b, i);
        Distribute(carry, b[i], Weight(i));
        pn := pn[i := n % BASE];
        carry := n / BASE;
      }
      assert b[..WIDTH] == b;
      Wrapped(pn, Val(a) + Val(b), carry);
    }

    method Increment()
      requires Ok()
      modifies this
      ensures Ok() && Value() == (old(Value()) + 1) % TWO256
    {
      hide Val, Weight;
      ghost var a := pn;
      var i := 0;
      WeightZero();
      Accumulate(pn, 0, 1);
      pn := pn[0 := (pn[0] + 1) % BASE];
      while pn[i] == 0 && i < WIDTH - 1
        invariant 0 <= i < WIDTH && Ok()
        invariant Val(pn) + (if pn[i] == 0 then Weight(i + 1) else 0) == Val(a) + 1
        decreases WIDTH - i
      {
        i := i + 1;
        Accumulate(pn, i, 1);
        pn := pn[i := (pn[i] + 1) % BASE];
      }
      Wrapped(pn, Val(a) + 1, if pn[i] == 0 then 1 else 0);
    }

    method Subtract(b: seq<nat>)
      requires Ok() && Limbs(b)
      modifies this
      ensures Ok() && Value() == (old(Value()) - Val(b)) % TWO256
    {
      hide Val, Weight;
      ghost var v := Value();
      var minus := Negate(b);
      Add(minus);
      ModOfNegative(v, Val(b), TWO256);
    }

    method Multiply(b: seq<nat>)
      requires Ok() && Limbs(b)
      modifies this
      ensures Ok() && Value() == old(Value()) * Val(b) % TWO256
    {
      hide Val, Weight;
      var a := pn;
      pn := ZERO;
      ZeroVal();
      NoLimbs(a);
      ghost var lost: nat := 0;
      for j := 0 to WIDTH
        invariant Ok() && Val(pn) + lost * TWO256 == Val(a[..j]) * Val(b)
      {
        ghost var before := pn;
        var carry := AddRow(a[j], b, j);
        lost := lost + carry + a[j] * Val(b[WIDTH - j..]);
        RowDone(Val(before), Val(pn), a[j], b, j, carry);
        ValNext(a, j);
        Distribute(Val(a[..j]), a[j] * Weight(j), Val(b));
        Distribute(lost - carry - a[j] * Val(b[WIDTH - j..]), carry + a[j] * Val(b[WIDTH - j..]), TWO256);
      }
      assert a[..WIDTH] == a;
      Wrapped(pn, Val(a) * Val(b), lost);
    }

    method ShiftLeft(shift: nat)
      requires Ok()
      modifies this
      ensures Ok() && Value() == old(Value()) * Pow2(shift) % TWO256
    {
      hide Val, Weight, Pow2, High, Low;
      var a := pn;
      pn := ZERO;
      ZeroVal();
      NoLimbs(a);
      var k, s := shift / 32, shift % 32;
      ghost var lost: nat := 0;
      for i := 0 to WIDTH
        invariant Ok() && Val(pn) + lost * TWO256 == Val(a[..i]) * Pow2(shift)
        invariant ReadyFor(pn, i + k, Pow2(s))
      {
        var hi, lo := High(a[i], s), Low(a[i], s);
        SplitWord(a[i], s);
        ghost var more := ShiftLeftStep(pn, a[i], i, k, s, hi, lo);
        PlaceLeft(a[i], i + k, s);
        ValNext(a, i);
        ShiftedSum(Val(a[..i]), a[i], Weight(i), Pow2(shift));
        Distribute(lost, more, TWO256);
        lost := lost + more;
      }
      assert a[..WIDTH] == a;
      Wrapped(pn, Val(a) * Pow2(shift), lost);
    }

    /** Both parts of a word moved left, each where there is a limb for it. */
    method PlaceLeft(x: nat, t: nat, s: nat)
      requires Ok() && x < BASE && s < 32 && ReadyFor(pn, t, Pow2(s))
      modifies this
      ensures pn == PutLeft(old(pn), t, High(x, s), Low(x, s))
      ensures Ok() && ReadyFor(pn, t + 1, Pow2(s))
    {
      hide Pow2, BitOr, High, Low;
      SplitWord(x, s);
      var hi, lo := High(x, s), Low(x, s);
      if t + 1 < WIDTH && s != 0 {
        OrZero(hi);
        pn := pn[t + 1 := BitOr(pn[t + 1], hi)];
      }
      Pow2Step(0);
      assert t + 1 < WIDTH ==> pn[t + 1] == hi;
      if t < WIDTH {
        OrDisjoint(pn[t], x % Pow2(32 - s), s);
        pn := pn[t := BitOr(pn[t], lo)];
      }
    }

    method ShiftRight(shift: nat)
      requires Ok()
      modifies this
      ensures Ok() && Value() == old(Value()) / Pow2(shift)
    {
      hide Val, Weight, Pow2, High, Low;
      var a := pn;
      pn := ZERO;
      ZeroVal();
      NoLimbs(a);
      var k, s := shift / 32, shift % 32;
      ghost var rest: nat := 0;
      for i := 0 to WIDTH
        invariant Ok() && Val(pn) * Pow2(shift) + rest == Val(a[..i]) && rest < Pow2(shift)
        invariant if i <= k then pn == ZERO else ReadyFor(pn, i - k - 1, Pow2(32 - s))
      {
        ValNext(a, i);
        if i < k {
          SmallPrefix(a, i + 1, k, s);
          rest := rest + a[i] * Weight(i);
        } else {
          rest := ShiftRightStep(pn, a, i, k, s, rest);
        }
        PlaceRight(a[i], i, k, s);
      }
      assert a[..WIDTH] == a;
      DivModUnique(Val(a), Pow2(shift), Val(pn), rest);
    }

    /** Both parts of a word moved right; nothing is placed below the first limb. */
    method PlaceRight(x: nat, i: nat, k: nat, s: nat)
      requires Ok() && x < BASE && s < 32 && i < WIDTH
      requires if i <= k then pn == ZERO else ReadyFor(pn, i - k - 1, Pow2(32 - s))
      modifies this
      ensures pn == if i < k then old(pn) else PutRight(old(pn), i - k, High(x, 32 - s), Low(x, 32 - s))
      ensures Ok() && (i >= k ==> ReadyFor(pn, i - k, Pow2(32 - s)))
    {
      hide Pow2, BitOr, High, Low;
      SplitWord(x, 32 - s);
      var hi, lo := High(x, 32 - s), Low(x, 32 - s);
      Pow2Of32();
      if i - k - 1 >= 0 && s != 0 {
        OrDisjoint(pn[i - k - 1], x % Pow2(s), 32 - s);
        pn := pn[i - k - 1 := BitOr(pn[i - k - 1], lo)];
      }
      if i - k >= 0 {
        OrZero(hi);
        pn := pn[i - k := BitOr(pn[i - k], hi)];
      }
    }

    /** Sets one bit of the result, which is clear. */
    method SetBit(shift: nat)
      requires Ok() && shift < 256 && Value() % Pow2(shift + 1) == 0
      modifies this
      ensures Ok() && Value() == old(Value()) + Pow2(shift)
    {
      hide Val, Pow2, BitOr;
      var k, s := shift / 32, shift % 32;
      ClearBit(pn, k, s);
      Pow2Step(s);
      OrDisjoint(Pow2(s), pn[k] / Pow2(s + 1), s + 1);
      ValUpdate(pn, k, pn[k] + Pow2(s));
      WeightIs(k);
      Pow2Add(s, 32 * k);
      pn := pn[k := BitOr(pn[k], Pow2(s))];
    }

    /** One bit of the quotient. */
    method DivideRound(div: Uint, num: Uint, shift: nat, ghost N: nat, ghost D: nat)
      requires Ok() && div.Ok() && num.Ok() && this != div && this != num && div != num && shift < 256
      requires div.Value() == D * Pow2(shift) && num.Value() < D * Pow2(shift + 1)
      requires Value() * D + num.Value() == N && Value() % Pow2(shift + 1) == 0
      modifies this, div, num
      ensures Ok() && div.Ok() && num.Ok()
      ensures shift > 0 ==> div.Value() == D * Pow2(shift - 1)
      ensures Value() * D + num.Value() == N && num.Value() < D * Pow2(shift) && Value() % Pow2(shift) == 0
    {
      hide Val, Weight, Pow2, Limbs;
      ghost var q, r := Value(), num.Value();
      var c := CompareTo(num.pn, div.pn);
      if c >= 0 {
        BelowTwo256(num.pn);
        num.Subtract(div.pn);
        DivModUnique(r - D * Pow2(shift), TWO256, 0, r - D * Pow2(shift));
        SetBit(shift);
        Distribute(q, Pow2(shift), D);
      }
      DivideStep(q, Value(), D, r, num.Value(), shift);
      div.ShiftRight(1);
      HalfOf(D, shift);
    }

    /** Shift and subtract. `ok` is false where the code throws. */
    method Divide(b: seq<nat>) returns (ok: bool)
      requires Ok() && Limbs(b)
      modifies this
      ensures Ok() && ok == (Val(b) != 0)
      ensures ok ==> Value() == old(Value()) / Val(b)
    {
      hide Val, Weight, Pow2;
      var div := new Uint(b);
      var num := new Uint(pn);
      ghost var N, D := Val(pn), Val(b);
      pn := ZERO;
      ZeroVal();
      var numBits := BitLength(num.pn);
      var divBits := BitLength(div.pn);
      if divBits == 0 {
        Pow2Step(0);
        return false;
      }
      ok := true;
      if divBits > numBits {
        SmallerIsZero(N, D, numBits, divBits);
        return;
      }
      var shift := numBits - divBits;
      AlignFits(N, D, numBits, divBits);
      div.ShiftLeft(shift);
      DivisibleByAny(shift);
      while shift >= 0
        invariant -1 <= shift < 256 && Ok() && div.Ok() && num.Ok() && fresh(div) && fresh(num) && div != num
        invariant shift >= 0 ==> Val(div.pn) == D * Pow2(shift)
        invariant Val(pn) * D + Val(num.pn) == N && Val(num.pn) < D * Pow2(shift + 1)
        invariant Val(pn) % Pow2(shift + 1) == 0
        decreases shift
      {
        DivideRound(div, num, shift, N, D);
        shift := shift - 1;
      }
      Pow2Step(0);
      DivModUnique(N, D, Val(pn), Val(num.pn));
    }

    /** Adds `x * b`, moved up by `j` limbs, as far as the limbs reach; the last carry falls off. */
    method AddRow(x: nat, b: seq<nat>, j: nat) returns (carry: nat)
      requires Ok() && Limbs(b) && x < BASE && j < WIDTH
      modifies this
      ensures Ok() && Val(pn) + carry * TWO256 == old(Val(pn)) + x * Weight(j) * Val(b[..WIDTH - j])
    {
      hide Val, Weight;
      carry := 0;
      NoLimbs(b);
      for i := 0 to WIDTH - j
        invariant Ok() && carry < BASE
        invariant Val(pn) + carry * Weight(i + j) == old(Val(pn)) + x * Weight(j) * Val(b[..i])
      {
        var n := carry + pn[i + j] + x * b[i];
        WideSum(carry, pn[i + j], x, b[i]);
        Accumulate(pn, i + j, carry + x * b[i]);
        ValNext(b, i);
        WeightAdd(i, j);
        RowNext(x, Weight(j), Val(b[..i]), b[i], Weight(i), carry);
        pn := pn[i + j := n % BASE];
        carry := n / BASE;
      }
    }
  }

  // ---------------------------------------------------------------- shifts

  /** Moving a word left by `s` bits: what goes to the next limb, and what stays. */
  function High(x: nat, s: nat): nat
    requires s <= 32
  {
    Quotient(x, Pow2(32 - s))
  }

  function Low(x: nat, s: nat): nat { x * Pow2(s) % BASE }

  lemma SplitWord(x: nat, s: nat)
    requires x < BASE && s <= 32
    ensures var hi, lo := High(x, s), Low(x, s);
            && x * Pow2(s) == hi * BASE + lo && hi < Pow2(s)
            && lo == x % Pow2(32 - s) * Pow2(s) && lo + Pow2(s) <= BASE
  {
    hide Pow2;
    var t, u := Pow2(32 - s), Pow2(s);
    Pow2Add(32 - s, s);
    Pow2Of32();
    var hi, r := x / t, x % t;
    assert x == hi * t + r;
    Distribute(hi * t, r, u);
    assert hi * t * u == hi * (t * u);
    MulOrder(r, t - 1, u);
    assert (t - 1) * u == t * u - u;
    DivModUnique(x * u, BASE, hi, r * u);
    assert hi * t <= x < u * t;
    if hi >= u { MulOrder(u, hi, t); }
  }

  lemma ShiftedSum(v: nat, x: nat, w: nat, p: nat)
    ensures (v + x * w) * p == v * p + x * w * p
  {}

  /** Limbs above `t` are empty and limb `t` holds less than `p`. */
  predicate ReadyFor(a: seq<nat>, t: nat, p: nat)
    requires Limbs(a)
  {
    (forall j :: t < j < WIDTH ==> a[j] == 0) && (t < WIDTH ==> a[t] < p)
  }

  function PutLeft(a: seq<nat>, t: nat, hi: nat, lo: nat): seq<nat>
    requires Limbs(a)
  {
    if t + 1 < WIDTH then a[t + 1 := hi][t := a[t] + lo] else if t < WIDTH then a[t := a[t] + lo] else a
  }

  lemma ShiftLeftStep(was: seq<nat>, x: nat, i: nat, k: nat, s: nat, hi: nat, lo: nat) returns (lost: nat)
    requires Limbs(was) && x < BASE && x * Pow2(s) == hi * BASE + lo
    requires i + k + 1 < WIDTH ==> was[i + k + 1] == 0
    ensures Val(PutLeft(was, i + k, hi, lo)) + lost * TWO256 == Val(was) + x * Weight(i) * Pow2(32 * k + s)
  {
    hide Val, Weight, Pow2;
    var t := i + k;
    WeightAdd(i, k);
    WeightNext(t);
    WeightIs(k);
    Pow2Add(32 * k, s);
    WordMoved(x, Weight(i), Weight(k), Pow2(s), hi, lo);
    if t + 1 < WIDTH {
      ValUpdate(was, t + 1, hi);
      ValUpdate(was[t + 1 := hi], t, was[t] + lo);
      lost := 0;
    } else if t < WIDTH {
      ValUpdate(was, t, was[t] + lo);
      lost := hi;
    } else {
      WeightAdd(WIDTH, t - WIDTH);
      lost := (hi * BASE + lo) * Weight(t - WIDTH);
      MulSwap(hi * BASE + lo, TWO256, Weight(t - WIDTH));
    }
  }

  lemma MulSwap(x: nat, y: nat, z: nat)
    ensures x * (y * z) == x * z * y
  {}

  lemma WordMoved(x: nat, wi: nat, wk: nat, p: nat, hi: nat, lo: nat)
    requires x * p == hi * BASE + lo
    ensures x * wi * (wk * p) == hi * (BASE * (wi * wk)) + lo * (wi * wk)
    ensures x * wi * (wk * p) == (hi * BASE + lo) * (wi * wk)
  {
    assert x * wi * (wk * p) == x * p * (wi * wk);
    assert hi * BASE * (wi * wk) == hi * (BASE * (wi * wk));
  }

  lemma WeightIs(k: nat)
    ensures Weight(k) == Pow2(32 * k)
  {}

  function PutRight(a: seq<nat>, t: nat, hi: nat, lo: nat): seq<nat>
    requires Limbs(a) && t < WIDTH
  {
    if t == 0 then a[0 := hi] else a[t - 1 := a[t - 1] + lo][t := hi]
  }

  lemma SmallPrefix(a: seq<nat>, i: nat, k: nat, s: nat)
    requires Limbs(a) && i <= k && i <= WIDTH
    ensures Val(a[..i]) < Pow2(32 * k + s)
  {
    ValBelow(a[..i]);
    Pow2Monotone(32 * i, 32 * k + s);
  }

  /** The limbs so far, moved right, and what has been shifted out below them. */
  lemma ShiftRightStep(p: seq<nat>, a: seq<nat>, i: nat, k: nat, s: nat, rest: nat) returns (next: nat)
    requires Limbs(p) && Limbs(a) && k <= i < WIDTH && s < 32
    requires if i <= k then p == ZERO else p[i - k] == 0
    requires Val(p) * Pow2(32 * k + s) + rest == Val(a[..i]) && rest < Pow2(32 * k + s)
    ensures next < Pow2(32 * k + s)
    ensures Val(PutRight(p, i - k, High(a[i], 32 - s), Low(a[i], 32 - s))) * Pow2(32 * k + s) + next == Val(a[..i + 1])
  {
    hide Val, Weight, Pow2, High, Low;
    var x, t := a[i], i - k;
    var hi, lo := High(x, 32 - s), Low(x, 32 - s);
    var P := Pow2(32 * k + s);
    SplitWord(x, 32 - s);
    ValNext(a, i);
    WeightIs(k);
    Pow2Add(32 * k, s);
    if t == 0 {
      ZeroVal();
      WeightZero();
      ValUpdate(p, 0, hi);
      assert hi == x / Pow2(s) by { HighIs(x, s); }
      ValBelow(a[..k]);
      next := FirstWord(x, Weight(k), Pow2(s), hi, rest);
    } else {
      next := rest;
      ValUpdate(p, t - 1, p[t - 1] + lo);
      ValUpdate(p[t - 1 := p[t - 1] + lo], t, hi);
      WeightNext(t - 1);
      WeightAdd(t - 1, k);
      WeightNext(t - 1 + k);
      Pow2Add(32 - s, s);
      Pow2Of32();
      MovedDown(x, Weight(t - 1), Weight(k), Pow2(s), Pow2(32 - s), hi, lo);
      Distribute(Val(p), lo * Weight(t - 1) + hi * Weight(t), P);
    }
  }

  lemma HighIs(x: nat, s: nat)
    requires s <= 32
    ensures High(x, 32 - s) == x / Pow2(s)
  {}

  lemma FirstWord(x: nat, wk: nat, p: nat, hi: nat, rest: nat) returns (next: nat)
    requires wk >= 1 && p >= 1 && hi == x / p && rest < wk
    ensures next < wk * p && hi * (wk * p) + next == rest + x * wk
  {
    var r := x % p;
    assert x == hi * p + r;
    next := rest + r * wk;
    MulOrder(r, p - 1, wk);
    assert (p - 1) * wk == wk * p - wk;
    Distribute(hi * p, r, wk);
    MulSwap(hi, wk, p);
  }

  lemma MovedDown(x: nat, wt: nat, wk: nat, p: nat, u: nat, hi: nat, lo: nat)
    requires x * u == hi * BASE + lo && u * p == BASE
    ensures (lo * wt + hi * (BASE * wt)) * (wk * p) == x * (BASE * (wt * wk))
  {
    assert lo * wt + hi * (BASE * wt) == (hi * BASE + lo) * wt;
    assert x * u * wt * (wk * p) == x * (u * p * (wt * wk));
  }

  // ---------------------------------------------------------------- comparison, length, division

  method CompareTo(a: seq<nat>, b: seq<nat>) returns (c: int)
    requires Limbs(a) && Limbs(b)
    ensures c == if Val(a) < Val(b) then -1 else if Val(a) > Val(b) then 1 else 0
  {
    hide Val, Weight;
    var i := WIDTH - 1;
    assert a[..WIDTH] == a && b[..WIDTH] == b;
    while i >= 0
      invariant -1 <= i < WIDTH && Val(a) - Val(b) == Val(a[..i + 1]) - Val(b[..i + 1])
      decreases i
    {
      ValNext(a, i);
      ValNext(b, i);
      ValBelow(a[..i]);
      ValBelow(b[..i]);
      if a[i] < b[i] {
        TopDecides(Val(a[..i]), Val(b[..i]), a[i], b[i], Weight(i));
        return -1;
      }
      if a[i] > b[i] {
        TopDecides(Val(b[..i]), Val(a[..i]), b[i], a[i], Weight(i));
        return 1;
      }
      i := i - 1;
    }
    NoLimbs(a);
    NoLimbs(b);
    return 0;
  }

  lemma BelowTwo256(a: seq<nat>)
    requires Limbs(a)
    ensures Val(a) < TWO256
  {
    ValBelow(a);
  }

  lemma TopDecides(u: nat, v: nat, x: nat, y: nat, w: nat)
    requires u < w && x < y
    ensures u + x * w < v + y * w
  {
    MulOrder(x + 1, y, w);
    Distribute(x, 1, w);
  }

  /** `n` is the position of the highest bit plus one, or 0. */
  predicate IsLength(v: nat, n: nat) { v < Pow2(n) && (n > 0 ==> Pow2(n - 1) <= v) }

  method BitLength(a: seq<nat>) returns (n: nat)
    requires Limbs(a)
    ensures IsLength(Val(a), n) && n <= 256
  {
    hide Val, Weight, Pow2, IsLength;
    var pos := WIDTH - 1;
    assert a[..WIDTH] == a;
    while pos >= 0
      invariant -1 <= pos < WIDTH && Val(a) == Val(a[..pos + 1])
      decreases pos
    {
      ValNext(a, pos);
      if a[pos] != 0 {
        var nbits := 31;
        Pow2Of32();
        while nbits > 0
          invariant 0 <= nbits <= 31 && a[pos] < Pow2(nbits + 1)
        {
          Pow2Step(nbits);
          if a[pos] / Pow2(nbits) % 2 == 1 {
            LengthAt(a, pos, nbits);
            return 32 * pos + nbits + 1;
          }
          TopBitClear(a[pos], Pow2(nbits));
          nbits := nbits - 1;
        }
        Pow2Step(0);
        LengthAt(a, pos, 0);
        return 32 * pos + 1;
      }
      pos := pos - 1;
    }
    NoLimbs(a);
    ZeroLength();
    return 0;
  }

  lemma ZeroLength()
    ensures IsLength(0, 0)
  {}

  lemma TopBitClear(x: nat, p: nat)
    requires p >= 1 && x < 2 * p && x / p % 2 != 1
    ensures x < p
  {
    if x >= p { DivModUnique(x, p, 1, x - p); }
  }

  lemma LengthAt(a: seq<nat>, pos: nat, nbits: nat)
    requires Limbs(a) && pos < WIDTH && nbits < 32
    requires Val(a) == Val(a[..pos]) + a[pos] * Weight(pos)
    requires a[pos] < Pow2(nbits + 1) && (a[pos] / Pow2(nbits) % 2 == 1 || (nbits == 0 && a[pos] != 0))
    ensures IsLength(Val(a), 32 * pos + nbits + 1)
  {
    hide Val, Weight, Pow2;
    var x, w := a[pos], Weight(pos);
    ValBelow(a[..pos]);
    WeightIs(pos);
    Pow2Add(32 * pos, nbits + 1);
    Pow2Add(32 * pos, nbits);
    Pow2Step(0);
    MulOrder(x, Pow2(nbits + 1) - 1, w);
    assert (Pow2(nbits + 1) - 1) * w == w * Pow2(nbits + 1) - w;
    assert x >= Pow2(nbits) by { if x < Pow2(nbits) { DivModUnique(x, Pow2(nbits), 0, x); } }
    MulOrder(Pow2(nbits), x, w);
  }

  lemma SmallerIsZero(n: nat, d: nat, nb: nat, db: nat)
    requires IsLength(n, nb) && IsLength(d, db) && nb < db
    ensures d != 0 && 0 == n / d
  {
    Pow2Monotone(nb, db - 1);
    DivModUnique(n, d, 0, n);
  }

  /** Aligned with the dividend, the divisor still fits, and twice of it exceeds the dividend. */
  lemma AlignFits(n: nat, d: nat, nb: nat, db: nat)
    requires IsLength(n, nb) && IsLength(d, db) && 1 <= db <= nb <= 256
    ensures d != 0 && n < d * Pow2(nb - db + 1) && d * Pow2(nb - db) % TWO256 == d * Pow2(nb - db)
  {
    hide Pow2, Weight;
    Pow2Add(db - 1, nb - db + 1);
    MulOrder(Pow2(db - 1), d, Pow2(nb - db + 1));
    Pow2Add(db, nb - db);
    MulOrder(d, Pow2(db) - 1, Pow2(nb - db));
    assert (Pow2(db) - 1) * Pow2(nb - db) == Pow2(db) * Pow2(nb - db) - Pow2(nb - db);
    Pow2Monotone(nb, 256);
    WeightIs(WIDTH);
    DivModUnique(d * Pow2(nb - db), TWO256, 0, d * Pow2(nb - db));
  }

  lemma DivisibleByAny(shift: nat)
    ensures 0 % Pow2(shift + 1) == 0
  {
    DivModUnique(0, Pow2(shift + 1), 0, 0);
  }

  lemma DivideStep(q: nat, q2: nat, d: nat, r: nat, r2: nat, shift: nat)
    requires r < d * Pow2(shift + 1) && q % Pow2(shift + 1) == 0
    requires if r >= d * Pow2(shift) then r2 == r - d * Pow2(shift) && q2 == q + Pow2(shift) else r2 == r && q2 == q
    ensures r2 < d * Pow2(shift) && q2 % Pow2(shift) == 0
  {
    hide Pow2;
    var p, h := Pow2(shift), q / Pow2(shift + 1);
    Pow2Step(shift);
    Double(d, p);
    assert q == h * (2 * p);
    assert h * (2 * p) == 2 * h * p;
    DivModUnique(q, p, 2 * h, 0);
    Distribute(2 * h, 1, p);
    DivModUnique(q + p, p, 2 * h + 1, 0);
  }

  lemma HalfOf(d: nat, shift: nat)
    ensures shift > 0 ==> d * Pow2(shift) / Pow2(1) == d * Pow2(shift - 1)
  {
    hide Pow2;
    Pow2Step(0);
    if shift > 0 {
      Pow2Step(shift - 1);
      Double(d, Pow2(shift - 1));
    }
  }

  /** A bit of the number is clear along with all below it, so it is clear in its limb. */
  lemma ClearBit(a: seq<nat>, k: nat, s: nat)
    requires Limbs(a) && k < WIDTH && s < 32 && Val(a) % Pow2(32 * k + s + 1) == 0
    ensures a[k] == a[k] / Pow2(s + 1) * Pow2(s + 1) && a[k] + Pow2(s) < BASE
  {
    hide Val, Weight, Pow2;
    ValSplit(a, k);
    ValSplit(a[k..], 1);
    WeightIs(1);
    Pow2Of32();
    var low, rest, w, m := Val(a[..k]), Val(a[k..][1..]), Weight(k), Pow2(s + 1);
    assert a[k..][..1] == [a[k]];
    SingleLimb(a[k]);
    Pow2Add(32 * k, s + 1);
    Pow2Add(s + 1, 31 - s);
    ValBelow(a[..k]);
    WeightIs(k);
    LimbMultiple(low, a[k], rest, w, m, Pow2(31 - s), Val(a));
    Pow2Step(s);
    RoomForHalf(a[k], Pow2(s), Pow2(31 - s));
  }

  lemma SingleLimb(x: nat)
    ensures Val([x]) == x
  {
    assert [x][..0] == [];
    WeightZero();
  }

  lemma LimbMultiple(low: nat, x: nat, rest: nat, w: nat, m: nat, u: nat, v: nat)
    requires low < w && m >= 1 && m * u == BASE && v == low + w * (x + BASE * rest) && v % (w * m) == 0
    ensures x == x / m * m
  {
    var h := v / (w * m);
    assert v == h * (w * m) == h * m * w;
    DivModUnique(v, w, h * m, 0);
    assert v == (x + BASE * rest) * w + low;
    DivModUnique(v, w, x + BASE * rest, low);
    assert BASE * rest == m * u * rest == u * rest * m;
    assert x == (h - u * rest) * m by { Distribute(h, -(u * rest), m); }
    DivModUnique(x, m, h - u * rest, 0);
  }

  lemma RoomForHalf(x: nat, p: nat, u: nat)
    requires p >= 1 && 2 * p * u == BASE && x < BASE && x == x / (2 * p) * (2 * p)
    ensures x + p < BASE
  {
    var h := x / (2 * p);
    assert x == h * (2 * p) && u * (2 * p) == BASE;
    if h >= u { MulOrder(u, h, 2 * p); }
    MulOrder(h + 1, u, 2 * p);
    Distribute(h, 1, 2 * p);
  }

  method Complement(a: seq<nat>) returns (r: seq<nat>)
    requires Limbs(a)
    ensures Limbs(r) && Val(r) == TWO256 - 1 - Val(a)
  {
    hide Val, Weight;
    r := ZERO;
    NoLimbs(a);
    NoLimbs(r);
    WeightZero();
    for i := 0 to WIDTH
      invariant Limbs(r) && Val(r[..i]) + Val(a[..i]) == Weight(i) - 1
    {
      ghost var was := r;
      r := r[i := BASE - 1 - a[i]];
      assert r[..i] == was[..i];
      ValNext(r, i);
      ValNext(a, i);
      WeightNext(i);
      Distribute(r[i], a[i], Weight(i));
      assert (BASE - 1) * Weight(i) == BASE * Weight(i) - Weight(i);
    }
    assert r[..WIDTH] == r && a[..WIDTH] == a;
  }

  method Negate(a: seq<nat>) returns (r: seq<nat>)
    requires Limbs(a)
    ensures Limbs(r) && Val(r) == (TWO256 - Val(a)) % TWO256
  {
    r := Complement(a);
    var n := new Uint(r);
    n.Increment();
    r := n.pn;
  }

  lemma ModOfNegative(v: int, b: int, m: nat)
    requires m >= 1
    ensures (v + (m - b) % m) % m == (v - b) % m
  {
    var q, r := (m - b) / m, (m - b) % m;
    assert m - b == q * m + r;
    var x := v + r;
    assert x == x / m * m + x % m;
    assert v - b == (x / m + q - 1) * m + x % m;
    DivModUnique(v - b, m, x / m + q - 1, x % m);
  }

  lemma WideSum(c: nat, p: nat, x: nat, y: nat)
    requires c < BASE && p < BASE && x < BASE && y < BASE
    ensures c + p + x * y < BASE * BASE && (c + p + x * y) / BASE < BASE
  {
    MulOrder(x, BASE - 1, y);
    MulOrder(y, BASE - 1, BASE - 1);
  }

  lemma RowNext(x: nat, wj: nat, v: nat, y: nat, wi: nat, carry: nat)
    ensures (carry + x * y) * (wi * wj) == carry * (wi * wj) + (x * wj * (v + y * wi) - x * wj * v)
  {
    assert x * wj * (v + y * wi) == x * wj * v + x * wj * (y * wi);
    assert x * wj * (y * wi) == x * y * (wi * wj);
  }

  lemma WeightAdd(i: nat, j: nat)
    ensures Weight(i + j) == Weight(i) * Weight(j)
  {
    Pow2Add(32 * i, 32 * j);
  }

  lemma {:induction false} ValSplit(a: seq<nat>, m: nat)
    requires m <= |a|
    ensures Val(a) == Val(a[..m]) + Weight(m) * Val(a[m..])
    decreases |a|
  {
    hide Weight;
    if m == |a| {
      assert a[..m] == a && a[m..] == [];
    } else {
      var n := |a| - 1;
      ValSplit(a[..n], m);
      assert a[..n][..m] == a[..m] && a[..n][m..] == a[m..][..n - m];
      WeightAdd(m, n - m);
      assert Val(a[m..]) == Val(a[m..][..n - m]) + a[n] * Weight(n - m);
      SplitProduct(Weight(m), Val(a[m..][..n - m]), a[n], Weight(n - m));
    }
  }

  lemma SplitProduct(w: nat, v: nat, x: nat, u: nat)
    ensures w * (v + x * u) == w * v + x * (w * u)
  {}

  lemma RowDone(before: nat, after: nat, x: nat, b: seq<nat>, j: nat, carry: nat)
    requires Limbs(b) && j < WIDTH
    requires after + carry * TWO256 == before + x * Weight(j) * Val(b[..WIDTH - j])
    ensures after + (carry + x * Val(b[WIDTH - j..])) * TWO256 == before + x * Weight(j) * Val(b)
  {
    hide Val, Weight;
    var m := WIDTH - j;
    ValSplit(b, m);
    WeightAdd(j, m);
    RowSplit(x, Weight(j), Val(b[..m]), Weight(m), Val(b[m..]));
    Distribute(carry, x * Val(b[m..]), TWO256);
  }

  lemma RowSplit(x: nat, wj: nat, v: nat, wm: nat, u: nat)
    ensures x * wj * (v + wm * u) == x * wj * v + x * u * (wj * wm)
  {
    assert x * wj * (v + wm * u) == x * wj * v + x * wj * (wm * u);
    assert x * wj * (wm * u) == x * u * (wj * wm);
  }

  lemma ZeroVal()
    ensures Limbs(ZERO) && Val(ZERO) == 0
  {
    ValZeros(ZERO);
  }

  lemma WeightZero()
    ensures Weight(0) == 1
  {}

  lemma NoLimbs(a: seq<nat>)
    ensures Val(a[..0]) == 0
  {}

  lemma ValOfTwo(a: seq<nat>)
    requires Limbs(a) && forall i :: 2 <= i < WIDTH ==> a[i] == 0
    ensures Val(a) == a[0] + a[1] * BASE
  {
    ValOfLow(a, WIDTH);
    ValNext(a, 0);
    ValNext(a, 1);
    WeightNext(0);
    assert a[..WIDTH] == a && Weight(0) == 1;
  }

  lemma {:induction false} ValOfLow(a: seq<nat>, n: nat)
    requires 2 <= n <= |a| && forall i :: 2 <= i < |a| ==> a[i] == 0
    ensures Val(a[..n]) == Val(a[..2])
  {
    if n > 2 {
      ValOfLow(a, n - 1);
      ValNext(a, n - 1);
    }
  }
}
