/** The 32-bit compact form of a 256-bit number, and the work a target stands for. */
module Compact {
  import opened Arith
  import opened ArithUint

  const SIGN := 0x80_0000
  const MANTISSA := 0x100_0000

  // ---------------------------------------------------------------- decoding

  function Size(n: nat): nat { n / MANTISSA }
  function Mantissa(n: nat): nat { n % SIGN }
  predicate SignBit(n: nat) { n / SIGN % 2 == 1 }

  /** 256 to the power `n`. */
  function Bytes(n: nat): (p: nat)
    ensures p >= 1
  {
    Pow2(8 * n)
  }

  /** The mantissa after the shift that small exponents bring. */
  function Word(n: nat): nat { if Size(n) <= 3 then Quotient(Mantissa(n), Bytes(3 - Size(n))) else Mantissa(n) }

  /** The number the compact form denotes, however large. */
  function Exact(n: nat): nat { if Size(n) <= 3 then Word(n) else Mantissa(n) * Bytes(Size(n) - 3) }

  function Decode(n: nat): (v: nat)
    ensures v < TWO256
  {
    Exact(n) % TWO256
  }

  predicate Negative(n: nat) { Word(n) != 0 && SignBit(n) }
  predicate Overflow(n: nat) {
    Word(n) != 0 && (Size(n) > 34 || (Word(n) > 0xff && Size(n) > 33) || (Word(n) > 0xffff && Size(n) > 32))
  }

  lemma BytesAdd(a: nat, b: nat)
    ensures Bytes(a + b) == Bytes(a) * Bytes(b)
  {
    Pow2Add(8 * a, 8 * b);
  }

  lemma SmallBytes()
    ensures Bytes(0) == 1 && Bytes(1) == 0x100 && Bytes(2) == 0x1_0000 && Bytes(3) == 0x100_0000
  {
    Pow2Of32();
    Pow2Add(8, 8);
    Pow2Add(16, 8);
    Pow2Add(16, 16);
    assert Pow2(8) == 256 by { assert Pow2(4) == 16; }
  }

  lemma Bytes32()
    ensures Bytes(32) == TWO256
  {
    WeightIs(WIDTH);
  }

  lemma {:induction false} BytesMonotone(a: nat, b: nat)
    requires a <= b
    ensures Bytes(a) <= Bytes(b)
  {
    Pow2Monotone(8 * a, 8 * b);
  }

  /** The overflow flag is raised exactly when the number does not fit in 256 bits. */
  lemma OverflowIff(n: nat)
    ensures Overflow(n) <==> Exact(n) >= TWO256
  {
    hide Bytes, Pow2, Weight;
    SmallBytes();
    Bytes32();
    BytesMonotone(3, 32);
    var m, s := Mantissa(n), Size(n);
    if s <= 3 {
      DivSmaller(m, Bytes(3 - s));
    } else if s - 3 >= 32 {
      BytesMonotone(32, s - 3);
      ProductAtLeast(m, Bytes(s - 3));
    } else if s - 3 >= 30 {
      BytesAdd(s - 3, 35 - s);
      ProductCompare(m, Bytes(s - 3), Bytes(35 - s));
    } else {
      BytesAdd(3, 29);
      BytesMonotone(s - 3, 29);
      ProductBelow(m, Bytes(s - 3), MANTISSA, Bytes(29));
    }
  }

  lemma DivSmaller(m: nat, p: nat)
    requires p >= 1
    ensures m / p <= m
  {
    MulOrder(1, p, m / p);
  }

  lemma ProductAtLeast(m: nat, p: nat)
    ensures m > 0 ==> m * p >= p
    ensures m == 0 ==> m * p == 0
  {
    if m > 0 { MulOrder(1, m, p); }
  }

  lemma ProductCompare(m: nat, p: nat, u: nat)
    requires p >= 1
    ensures m * p >= p * u <==> m >= u
  {
    if m >= u { MulOrder(u, m, p); } else { MulOrder(m, u - 1, p); Distribute(u, -1, p); }
  }

  lemma ProductBelow(m: nat, p: nat, m2: nat, p2: nat)
    requires m < m2 && p <= p2 && p2 >= 1
    ensures m * p < m2 * p2
  {
    MulOrder(p, p2, m);
    MulOrder(m + 1, m2, p2);
    Distribute(m, 1, p2);
  }

  // ---------------------------------------------------------------- encoding

  function Length(v: nat): nat { if v == 0 then 0 else 1 + Length(v / 2) }

  lemma {:induction false} LengthIs(v: nat)
    ensures IsLength(v, Length(v))
  {
    if v > 0 { LengthIs(v / 2); }
  }

  lemma LengthUnique(v: nat, a: nat, b: nat)
    requires IsLength(v, a) && IsLength(v, b)
    ensures a == b
  {
    if a < b { Pow2Monotone(a, b - 1); }
    if b < a { Pow2Monotone(b, a - 1); }
  }

  function ByteLength(v: nat): nat { (Length(v) + 7) / 8 }

  /** The leading three bytes. */
  function Leading(v: nat): nat {
    if ByteLength(v) <= 3 then v * Bytes(3 - ByteLength(v)) else Quotient(v, Bytes(ByteLength(v) - 3))
  }

  /** The mantissa and exponent, with the sign position kept clear. */
  function Parts(v: nat): (nat, nat) {
    if Leading(v) / SIGN % 2 == 1 then (Leading(v) / 256, ByteLength(v) + 1) else (Leading(v), ByteLength(v))
  }

  function Encode(v: nat, negative: bool): nat {
    var (c, s) := Parts(v);
    c + s * MANTISSA + (if negative && c != 0 then SIGN else 0)
  }

  lemma ByteLengthBounds(v: nat)
    ensures v < Bytes(ByteLength(v))
    ensures v > 0 ==> ByteLength(v) >= 1 && Bytes(ByteLength(v) - 1) <= v
  {
    LengthIs(v);
    Pow2Monotone(Length(v), 8 * ByteLength(v));
    if v > 0 { Pow2Monotone(8 * (ByteLength(v) - 1), Length(v) - 1); }
  }

  lemma ByteLengthAtMost(v: nat, bits: nat)
    requires v < Pow2(bits)
    ensures Length(v) <= bits
  {
    hide Length;
    LengthIs(v);
    if Length(v) > bits { Pow2Monotone(bits, Length(v) - 1); }
  }

  lemma QuotientAtLeast(v: nat, p: nat, n: nat)
    requires p >= 1 && v >= p * n
    ensures v / p >= n
  {
    assert v == v / p * p + v % p;
    if v / p < n {
      MulOrder(v / p, n - 1, p);
      Distribute(n, -1, p);
    }
  }

  /** Three bytes at most, and the first of them is not zero when there are three. */
  lemma LeadingBounds(v: nat)
    ensures Leading(v) < MANTISSA
    ensures ByteLength(v) > 3 ==> Leading(v) >= 0x1_0000
  {
    hide Bytes, Length;
    var s := ByteLength(v);
    ByteLengthBounds(v);
    SmallBytes();
    if s <= 3 {
      BytesAdd(s, 3 - s);
      ProductBelow(v, Bytes(3 - s), Bytes(s), Bytes(3 - s));
    } else {
      BytesAdd(s - 3, 3);
      BytesAdd(s - 3, 2);
      assert s - 3 + 2 == s - 1;
      QuotientBelow(v, Bytes(s - 3), MANTISSA);
      assert v > 0 by { BytesMonotone(0, s - 1); LongIsPositive(v); }
      QuotientAtLeast(v, Bytes(s - 3), 0x1_0000);
    }
  }

  lemma LongIsPositive(v: nat)
    ensures ByteLength(v) > 0 ==> v > 0
  {}

  /** The assertions of the encoder: the mantissa leaves the sign clear and the exponent fits in a byte. */
  lemma EncoderAsserts(v: nat)
    requires v < TWO256
    ensures Parts(v).0 < SIGN && Parts(v).1 <= 33
  {
    hide Leading, Bytes, Length;
    LeadingBounds(v);
    WeightIs(WIDTH);
    ByteLengthAtMost(v, 256);
  }

  // ---------------------------------------------------------------- round trips

  lemma QuotientOfProduct(v: nat, p: nat)
    requires p >= 1
    ensures Quotient(v * p, p) == v
  {
    DivModUnique(v * p, p, v, 0);
  }

  lemma QuotientTwice(v: nat, p: nat)
    requires p >= 1
    ensures v / p / 256 == v / (p * 256)
  {
    var q, r := v / p, v % p;
    var q2, r2 := q / 256, q % 256;
    assert v == q * p + r && q == q2 * 256 + r2;
    Distribute(q2 * 256, r2, p);
    assert q2 * 256 * p == q2 * (p * 256);
    MulOrder(r2, 255, p);
    DivModUnique(v, p * 256, q2, r2 * p + r);
  }

  /** Below four bytes nothing is lost; above, the mantissa is the number without its low bytes. */
  lemma PartsOf(v: nat)
    ensures var (c, s) := Parts(v); if s <= 3 then Quotient(c, Bytes(3 - s)) == v else c == v / Bytes(s - 3) && c >= 0x8000
  {
    hide Bytes, Length;
    var bl, lead := ByteLength(v), Leading(v);
    LeadingBounds(v);
    SmallBytes();
    if lead / SIGN % 2 == 1 {
      if bl <= 2 {
        BytesAdd(2 - bl, 1);
        assert v * (Bytes(2 - bl) * 256) == v * Bytes(2 - bl) * 256;
        QuotientOfProduct(v, Bytes(2 - bl));
      } else if bl > 3 {
        BytesAdd(bl - 3, 1);
        QuotientTwice(v, Bytes(bl - 3));
      }
    } else if bl <= 3 {
      QuotientOfProduct(v, Bytes(3 - bl));
    }
  }

  lemma Fields(c: nat, s: nat)
    requires c < SIGN
    ensures var n := c + s * MANTISSA; Size(n) == s && Mantissa(n) == c && !SignBit(n)
  {
    var n := c + s * MANTISSA;
    DivModUnique(n, MANTISSA, s, c);
    DivModUnique(n, SIGN, 2 * s, c);
  }

  /** What decoding gives back, and how little it loses. */
  lemma Truncates(v: nat)
    requires v < TWO256
    ensures var n, t := Encode(v, false), Exact(Encode(v, false));
            && !Negative(n) && !Overflow(n) && Decode(n) == t
            && t == (if Parts(v).1 <= 3 then v else v - v % Bytes(Parts(v).1 - 3))
            && t <= v && (v > 0 ==> (v - t) * 0x8000 < v)
  {
    hide Parts, Bytes, Length, Weight;
    var (c, s) := Parts(v);
    var n := Encode(v, false);
    EncoderAsserts(v);
    PartsOf(v);
    Fields(c, s);
    if s > 3 {
      var p := Bytes(s - 3);
      assert v == c * p + v % p;
      MulOrder(0x8000, c, p);
      assert (v % p) * 0x8000 < p * 0x8000;
    }
    OverflowIff(n);
    DivModUnique(Exact(n), TWO256, 0, Exact(n));
  }

  /** A number with three significant bytes or fewer, the first below 0x80, is encoded without loss. */
  lemma NothingBelow(m: nat, f: nat)
    requires m < SIGN
    ensures var v := m * Bytes(f); Parts(v).1 <= f + 3
  {
    hide Bytes, Length;
    var v := m * Bytes(f);
    SignPower(f);
    ProductBelow(m, Bytes(f), SIGN, Bytes(f));
    ByteLengthAtMost(v, 8 * f + 23);
    if ByteLength(v) == f + 3 {
      if f > 0 { QuotientOfProduct(m, Bytes(f)); } else { SmallBytes(); }
    }
  }

  lemma SignPower(f: nat)
    ensures Pow2(8 * f + 23) == SIGN * Bytes(f)
  {
    SmallBytes();
    Pow2Add(8 * f, 23);
    Pow2Step(23);
  }

  lemma DivisibleBySmaller(m: nat, f: nat, e: nat)
    requires e <= f
    ensures m * Bytes(f) % Bytes(e) == 0
  {
    hide Bytes;
    BytesAdd(f - e, e);
    assert m * (Bytes(f - e) * Bytes(e)) == m * Bytes(f - e) * Bytes(e);
    DivModUnique(m * Bytes(f), Bytes(e), m * Bytes(f - e), 0);
  }

  /** A compact number that is neither negative nor too large keeps its value when encoded again. */
  lemma Reencodes(n: nat)
    requires !Negative(n) && !Overflow(n)
    ensures Decode(Encode(Decode(n), false)) == Decode(n)
  {
    hide Parts, Bytes, Length, Weight, Encode;
    OverflowIff(n);
    var v := Exact(n);
    DivModUnique(v, TWO256, 0, v);
    Truncates(v);
    if Size(n) <= 3 {
      SmallBytes();
      DivSmaller(Mantissa(n), Bytes(3 - Size(n)));
      NothingBelow(v, 0);
    } else {
      NothingBelow(Mantissa(n), Size(n) - 3);
      if Parts(v).1 > 3 { DivisibleBySmaller(Mantissa(n), Size(n) - 3, Parts(v).1 - 3); }
    }
  }

  lemma SignedFields(c: nat, s: nat)
    requires c < SIGN
    ensures var n := c + s * MANTISSA + SIGN; Size(n) == s && Mantissa(n) == c && SignBit(n)
  {
    var n := c + s * MANTISSA + SIGN;
    DivModUnique(n, MANTISSA, s, c + SIGN);
    DivModUnique(n, SIGN, 2 * s + 1, c);
  }

  /** The sign survives encoding exactly for numbers other than zero, and does not touch the value. */
  lemma SignKept(v: nat, negative: bool)
    requires v < TWO256
    ensures var n := Encode(v, negative);
            Decode(n) == Decode(Encode(v, false)) && (Negative(n) <==> negative && v != 0) && !Overflow(n)
  {
    hide Parts, Bytes, Length, Weight;
    var (c, s) := Parts(v);
    EncoderAsserts(v);
    PartsOf(v);
    Fields(c, s);
    SignedFields(c, s);
    Truncates(v);
  }

  // ---------------------------------------------------------------- work

  /** A target as consensus accepts it. */
  predicate ValidTarget(n: nat) { !Negative(n) && !Overflow(n) && Decode(n) != 0 }

  function Proof(n: nat): nat {
    if ValidTarget(n) then Quotient(TWO256 - 1 - Decode(n), Decode(n) + 1) + 1 else 0
  }

  /** The target is never all ones, so the divisor does not wrap to zero. */
  lemma TargetBelow(n: nat)
    requires !Overflow(n)
    ensures Decode(n) + 1 < TWO256
  {
    hide Bytes, Weight, Pow2;
    OverflowIff(n);
    var v := Exact(n);
    DivModUnique(v, TWO256, 0, v);
    SmallBytes();
    Bytes32();
    BytesAdd(1, 31);
    BytesMonotone(3, 31);
    if Size(n) <= 3 {
      DivSmaller(Mantissa(n), Bytes(3 - Size(n)));
    } else {
      BytesAdd(1, Size(n) - 4);
      assert Size(n) - 4 + 1 == Size(n) - 3;
      EvenBelow(Mantissa(n) * Bytes(Size(n) - 4), Bytes(31), v, Mantissa(n), Bytes(Size(n) - 4));
    }
  }

  lemma EvenBelow(x: nat, y: nat, v: nat, m: nat, p: nat)
    requires x == m * p && v == m * (256 * p) && v < 256 * y
    ensures v + 1 < 256 * y
  {
    assert v == 256 * x;
  }

  /** The work of a block is 2^256 / (target + 1), rounded down. */
  lemma ProofIsExact(n: nat)
    requires ValidTarget(n)
    ensures Proof(n) == TWO256 / (Decode(n) + 1) && 1 <= Proof(n) < TWO256
  {
    hide Weight, Decode;
    TargetBelow(n);
    var d, x := Decode(n) + 1, TWO256 - 1 - Decode(n);
    assert x == x / d * d + x % d;
    Distribute(x / d, 1, d);
    DivModUnique(TWO256, d, x / d + 1, x % d);
    MulOrder(2, d, x / d + 1);
  }

  /** A lower target is more work. */
  lemma ProofAntitone(a: nat, b: nat)
    requires ValidTarget(a) && ValidTarget(b) && Decode(a) <= Decode(b)
    ensures Proof(a) >= Proof(b)
  {
    hide Weight, Decode, Proof;
    ProofIsExact(a);
    ProofIsExact(b);
    var d, e := Decode(a) + 1, Decode(b) + 1;
    assert TWO256 == TWO256 / e * e + TWO256 % e;
    MulOrder(d, e, TWO256 / e);
    QuotientAtLeast(TWO256, d, TWO256 / e);
  }

  // ---------------------------------------------------------------- on limbs

  method SetCompact(target: Uint, n: nat) returns (negative: bool, overflow: bool)
    requires n < BASE
    modifies target
    ensures target.Ok() && target.Value() == Decode(n) && negative == Negative(n) && overflow == Overflow(n)
  {
    hide Bytes, Pow2, Weight, Val, Limbs;
    var size, word := n / MANTISSA, n % SIGN;
    BytesIs(3);
    if size <= 3 {
      BytesIs(3 - size);
      DivSmaller(word, Pow2(8 * (3 - size)));
      word := word / Pow2(8 * (3 - size));
      target.SetWord(word);
      SmallFits(word);
    } else {
      BytesIs(size - 3);
      target.SetWord(word);
      target.ShiftLeft(8 * (size - 3));
    }
    negative := word != 0 && n / SIGN % 2 == 1;
    overflow := word != 0 && (size > 34 || (word > 0xff && size > 33) || (word > 0xffff && size > 32));
  }

  lemma BytesIs(n: nat)
    ensures Bytes(n) == Pow2(8 * n)
  {}

  lemma SmallFits(v: nat)
    requires v < BASE
    ensures v % TWO256 == v
  {
    hide Pow2;
    Pow2Of32();
    Pow2Monotone(32, 256);
    WeightIs(WIDTH);
    DivModUnique(v, TWO256, 0, v);
  }

  method GetCompact(v: Uint, negative: bool) returns (n: nat)
    requires v.Ok()
    ensures n == Encode(v.Value(), negative) && n < BASE
  {
    hide Bytes, Pow2, Weight, Val, Length, Limbs;
    var bits := BitLength(v.pn);
    ghost var x := v.Value();
    LengthIs(x);
    LengthUnique(x, bits, Length(x));
    LeadingBounds(x);
    ByteLengthBounds(x);
    BelowTwo256(v.pn);
    EncoderAsserts(x);
    var size := (bits + 7) / 8;
    var compact: nat;
    if size <= 3 {
      BytesIs(3 - size);
      var low := LowWord(v.pn, size);
      compact := low * Pow2(8 * (3 - size));
    } else {
      BytesIs(size - 3);
      var bn := new Uint(v.pn);
      bn.ShiftRight(8 * (size - 3));
      SmallBytes();
      compact := LowWord(bn.pn, 3);
    }
    if compact / SIGN % 2 == 1 {
      compact, size := compact / 256, size + 1;
    }
    n := compact + size * MANTISSA + (if negative && compact != 0 then SIGN else 0);
  }

  /** The low 64 bits, when the number is at most `size` bytes long. */
  method LowWord(a: seq<nat>, size: nat) returns (low: nat)
    requires Limbs(a) && size <= 3 && Val(a) < Bytes(size)
    ensures low == Val(a)
  {
    hide Val, Weight, Bytes;
    SmallBytes();
    BytesMonotone(size, 3);
    OneLimb(a);
    low := a[0] + a[1] * BASE;
  }

  lemma OneLimb(a: seq<nat>)
    requires Limbs(a) && Val(a) < BASE
    ensures Val(a) == a[0] && a[1] == 0
  {
    hide Val, Weight;
    ValSplit(a, 1);
    WeightNext(0);
    WeightZero();
    assert a[..1] == [a[0]];
    SingleLimb(a[0]);
    ValSplit(a[1..], 1);
    assert a[1..][..1] == [a[1]];
    SingleLimb(a[1]);
  }

  method GetBlockProof(n: nat) returns (work: seq<nat>)
    requires n < BASE
    ensures Limbs(work) && Val(work) == Proof(n)
  {
    hide Val, Weight, Limbs, Decode, Negative, Overflow;
    ZeroVal();
    var target := new Uint(ZERO);
    var negative, overflow := SetCompact(target, n);
    var isZero := CompareTo(target.pn, ZERO);
    if negative || overflow || isZero == 0 { return ZERO; }
    TargetBelow(n);
    var inverse := Complement(target.pn);
    var quotient := new Uint(inverse);
    ghost var t := Decode(n);
    target.Increment();
    DivModUnique(t + 1, TWO256, 0, t + 1);
    var ok := quotient.Divide(target.pn);
    ProofIsExact(n);
    quotient.Increment();
    DivModUnique(Proof(n), TWO256, 0, Proof(n));
    work := quotient.pn;
  }
}
