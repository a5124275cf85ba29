/** The rolling Bloom filter at the level of its 64-bit words. `BloomFilter.dfy` holds the object. */
module Bloom {
  import opened Arith

  // ---------------------------------------------------------------- words

  predicate Bit(w: bv64, b: bv64)
    requires b < 64
  {
    (w >> b) & 1 == 1
  }

  function And(x: bv64, y: bv64): bv64 { x & y }
  function Or(x: bv64, y: bv64): bv64 { x | y }
  function Xor(x: bv64, y: bv64): bv64 { x ^ y }
  function Not(x: bv64): bv64 { !x }

  /** `x` moved to bit `b`. */
  function At(x: bv64, b: bv64): bv64
    requires b < 64
  {
    x << b
  }

  /** A word of 64 equal bits. */
  function Flat(x: bv64): bv64 { 0 - x }

  lemma BitwiseAnd(x: bv64, y: bv64, b: bv64)
    requires b < 64
    ensures Bit(x & y, b) <==> Bit(x, b) && Bit(y, b)
  {}

  lemma BitwiseOr(x: bv64, y: bv64, b: bv64)
    requires b < 64
    ensures Bit(x | y, b) <==> Bit(x, b) || Bit(y, b)
  {}

  lemma AndBit(x: bv64, y: bv64, b: bv64)
    requires b < 64
    ensures Bit(And(x, y), b) <==> Bit(x, b) && Bit(y, b)
  {
    hide Bit;
    BitwiseAnd(x, y, b);
  }

  lemma OrBit(x: bv64, y: bv64, b: bv64)
    requires b < 64
    ensures Bit(Or(x, y), b) <==> Bit(x, b) || Bit(y, b)
  {
    hide Bit;
    BitwiseOr(x, y, b);
  }

  lemma NotBit(x: bv64, b: bv64)
    requires b < 64
    ensures Bit(Not(x), b) <==> !Bit(x, b)
  {}

  lemma XorIs(x: bv64, y: bv64)
    ensures Xor(x, y) == Or(And(x, Not(y)), And(Not(x), y))
  {}

  lemma XorBit(x: bv64, y: bv64, b: bv64)
    requires b < 64
    ensures Bit(Xor(x, y), b) <==> Bit(x, b) != Bit(y, b)
  {
    hide Bit, And, Or, Xor, Not;
    XorIs(x, y);
    NotBit(x, b);
    NotBit(y, b);
    AndBit(x, Not(y), b);
    AndBit(Not(x), y, b);
    OrBit(And(x, Not(y)), And(Not(x), y), b);
  }

  lemma AtBit(b: bv64, c: bv64)
    requires b < 64 && c < 64
    ensures Bit(At(1, b), c) <==> b == c
    ensures !Bit(At(0, b), c)
  {}

  lemma FlatBit(b: bv64)
    requires b < 64
    ensures !Bit(Flat(0), b) && Bit(Flat(1), b)
  {}

  /** The word with bit `b` set to `x`. */
  function SetBit(w: bv64, b: bv64, x: bv64): bv64
    requires b < 64
  {
    Or(And(w, Not(At(1, b))), At(x, b))
  }

  lemma SetBitReads(w: bv64, b: bv64, x: bv64, c: bv64)
    requires b < 64 && c < 64 && (x == 0 || x == 1)
    ensures Bit(SetBit(w, b, x), c) <==> if b == c then x == 1 else Bit(w, c)
  {
    hide Bit, And, Or, Not, At;
    AtBit(b, c);
    NotBit(At(1, b), c);
    AndBit(w, Not(At(1, b)), c);
    OrBit(And(w, Not(At(1, b))), At(x, b), c);
  }

  /** The two bits that spell a generation number. */
  function Low(gen: nat): bv64 { if gen % 2 == 1 then 1 else 0 }
  function High(gen: nat): bv64 { if gen / 2 % 2 == 1 then 1 else 0 }

  /** The bits of a pair of words that do not belong to `gen`. */
  function KeepMask(p1: bv64, p2: bv64, gen: nat): bv64 { Or(Xor(p1, Flat(Low(gen))), Xor(p2, Flat(High(gen)))) }

  /** The generation at one bit of a pair of words; 0 is unset. */
  function PairTag(p1: bv64, p2: bv64, b: bv64): nat
    requires b < 64
  {
    (if Bit(p1, b) then 1 else 0) + (if Bit(p2, b) then 2 else 0)
  }

  /** The word-parallel wipe clears exactly the bits of generation `gen`, all 64 at once. */
  lemma WipeIsExact(p1: bv64, p2: bv64, gen: nat, b: bv64)
    requires b < 64 && 1 <= gen <= 3
    ensures var m := KeepMask(p1, p2, gen);
            PairTag(And(p1, m), And(p2, m), b) == if PairTag(p1, p2, b) == gen then 0 else PairTag(p1, p2, b)
  {
    hide Bit, And, Or, Xor, Flat;
    var m, g1, g2 := KeepMask(p1, p2, gen), Flat(Low(gen)), Flat(High(gen));
    FlatBit(b);
    XorBit(p1, g1, b);
    XorBit(p2, g2, b);
    OrBit(Xor(p1, g1), Xor(p2, g2), b);
    AndBit(p1, m, b);
    AndBit(p2, m, b);
  }

  // ---------------------------------------------------------------- the filter

  type Key = seq<nat>

  /** Entries per generation, the hash functions and their number, and the number of words. */
  datatype Params = Params(per: nat, funcs: nat, hash: (nat, Key) -> bv32, words: nat) {
    predicate Ok() { per >= 1 && words >= 2 && words % 2 == 0 }
  }

  datatype Filter = Filter(entries: nat, gen: nat, data: seq<bv64>)

  predicate Valid(ps: Params, f: Filter) {
    ps.Ok() && |f.data| == ps.words && f.entries <= ps.per && 1 <= f.gen <= 3
  }

  function Empty(ps: Params): Filter { Filter(0, 1, seq(ps.words, _ => 0)) }

  /** Multiply-and-shift in place of a remainder. */
  function FastMod(x: bv32, n: nat): nat { (x as nat) * n / 0x1_0000_0000 }

  lemma ScaledBelow(x: nat, m: nat, n: nat)
    requires x < m && n >= 1
    ensures x * n / m < n
  {
    MulOrder(x, m - 1, n);
    assert (m - 1) * n == m * n - n;
    QuotientBelow(x * n, m, n);
  }

  /** The index is in range and stands to the range as the hash does to 2^32. */
  lemma FastModInRange(x: bv32, n: nat)
    requires n >= 1
    ensures FastMod(x, n) < n
    ensures FastMod(x, n) * 0x1_0000_0000 <= (x as nat) * n < (FastMod(x, n) + 1) * 0x1_0000_0000
  {
    ScaledBelow(x as nat, 0x1_0000_0000, n);
  }

  /** Where a hash points: a pair of words, and a bit in them. */
  function PairOf(ps: Params, h: bv32): (p: nat)
    requires ps.Ok()
    ensures 2 * p + 1 < ps.words && 2 * p <= FastMod(h, ps.words) <= 2 * p + 1
  {
    FastModInRange(h, ps.words);
    FastMod(h, ps.words) / 2
  }

  function BitOf(h: bv32): (b: bv64)
    ensures b < 64
  {
    (h & 0x3F) as bv64
  }

  /** Every bit of a word can be pointed to. */
  lemma EveryBit(b: bv64)
    requires b < 64
    ensures exists h: bv32 :: BitOf(h) == b
  {
    var h := (b & 0x3F) as bv32;
    assert BitOf(h) == b;
  }

  function Tag(f: Filter, p: nat, b: bv64): (t: nat)
    requires 2 * p + 1 < |f.data| && b < 64
    ensures t <= 3
  {
    PairTag(f.data[2 * p], f.data[2 * p + 1], b)
  }

  function Mark(ps: Params, f: Filter, h: bv32): Filter
    requires Valid(ps, f)
  {
    var p, b := PairOf(ps, h), BitOf(h);
    f.(data := f.data[2 * p := SetBit(f.data[2 * p], b, Low(f.gen))]
                     [2 * p + 1 := SetBit(f.data[2 * p + 1], b, High(f.gen))])
  }

  function MarkAll(ps: Params, f: Filter, key: Key, n: nat): (g: Filter)
    requires Valid(ps, f) && n <= ps.funcs
    ensures Valid(ps, g)
  {
    if n == 0 then f else Mark(ps, MarkAll(ps, f, key, n - 1), ps.hash(n - 1, key))
  }

  function WipedWord(data: seq<bv64>, gen: nat, i: nat): bv64
    requires i < |data| && |data| % 2 == 0
  {
    And(data[i], KeepMask(data[i - i % 2], data[i - i % 2 + 1], gen))
  }

  function Wiped(data: seq<bv64>, gen: nat): (wiped: seq<bv64>)
    requires |data| % 2 == 0
    ensures |wiped| == |data|
  {
    seq(|data|, i requires 0 <= i < |data| => WipedWord(data, gen, i))
  }

  /** A full generation gives way to the next, whose old marks are wiped. */
  function Roll(ps: Params, f: Filter): Filter
    requires Valid(ps, f)
  {
    if f.entries == ps.per then
      var gen := if f.gen == 3 then 1 else f.gen + 1;
      Filter(0, gen, Wiped(f.data, gen))
    else f
  }

  function Insert(ps: Params, f: Filter, key: Key): Filter
    requires Valid(ps, f)
  {
    var g := Roll(ps, f);
    MarkAll(ps, g.(entries := g.entries + 1), key, ps.funcs)
  }

  predicate Contains(ps: Params, f: Filter, key: Key)
    requires Valid(ps, f)
  {
    forall n :: 0 <= n < ps.funcs ==> var h := ps.hash(n, key); Tag(f, PairOf(ps, h), BitOf(h)) != 0
  }

  // ---------------------------------------------------------------- what each step does to a tag

  lemma MarkTags(ps: Params, f: Filter, h: bv32, p: nat, b: bv64)
    requires Valid(ps, f) && 2 * p + 1 < ps.words && b < 64
    ensures Tag(Mark(ps, f, h), p, b) == if (p, b) == (PairOf(ps, h), BitOf(h)) then f.gen else Tag(f, p, b)
  {
    hide Bit, SetBit, PairOf;
    var q, c := PairOf(ps, h), BitOf(h);
    SetBitReads(f.data[2 * q], c, Low(f.gen), b);
    SetBitReads(f.data[2 * q + 1], c, High(f.gen), b);
  }

  lemma WipedTags(f: Filter, gen: nat, p: nat, b: bv64)
    requires |f.data| % 2 == 0 && 2 * p + 1 < |f.data| && b < 64 && 1 <= gen <= 3
    ensures Tag(f.(data := Wiped(f.data, gen)), p, b) == if Tag(f, p, b) == gen then 0 else Tag(f, p, b)
  {
    hide PairTag, KeepMask, And;
    WipeIsExact(f.data[2 * p], f.data[2 * p + 1], gen, b);
  }

  /** The key's first `n` places carry the current generation, and no other place changes. */
  lemma {:induction false} MarkAllTags(ps: Params, f: Filter, key: Key, n: nat, p: nat, b: bv64)
    requires Valid(ps, f) && n <= ps.funcs && 2 * p + 1 < ps.words && b < 64
    ensures MarkAll(ps, f, key, n).gen == f.gen && MarkAll(ps, f, key, n).entries == f.entries
    ensures Tag(MarkAll(ps, f, key, n), p, b) == if Placed(ps, key, n, p, b) then f.gen else Tag(f, p, b)
  {
    hide Tag, PairOf;
    if n > 0 {
      MarkAllTags(ps, f, key, n - 1, p, b);
      MarkTags(ps, MarkAll(ps, f, key, n - 1), ps.hash(n - 1, key), p, b);
      PlacedNext(ps, key, n, p, b);
    }
  }

  predicate PointsTo(ps: Params, h: bv32, p: nat, b: bv64)
    requires ps.Ok()
  {
    (p, b) == (PairOf(ps, h), BitOf(h))
  }

  /** Some of the key's first `n` hashes points to this place. */
  predicate Placed(ps: Params, key: Key, n: nat, p: nat, b: bv64)
    requires ps.Ok()
  {
    exists i :: 0 <= i < n && PointsTo(ps, ps.hash(i, key), p, b)
  }

  lemma PlacedNext(ps: Params, key: Key, n: nat, p: nat, b: bv64)
    requires ps.Ok() && n > 0
    ensures Placed(ps, key, n, p, b) <==> Placed(ps, key, n - 1, p, b) || PointsTo(ps, ps.hash(n - 1, key), p, b)
  {
    if PointsTo(ps, ps.hash(n - 1, key), p, b) { assert 0 <= n - 1 < n; }
  }

  // ---------------------------------------------------------------- runs

  /** How many generations ago a tag was written, when the current one is `gen`. */
  function Age(gen: nat, tag: nat): nat
    requires 1 <= gen <= 3 && 1 <= tag <= 3
  {
    (gen - tag + 3) % 3
  }

  /** Every place of the key was written at most `age` generations ago. */
  predicate Alive(ps: Params, f: Filter, key: Key, age: nat)
    requires Valid(ps, f)
  {
    forall n :: 0 <= n < ps.funcs ==> AliveAt(ps, f, ps.hash(n, key), age)
  }

  predicate AliveAt(ps: Params, f: Filter, h: bv32, age: nat)
    requires Valid(ps, f)
  {
    var t := Tag(f, PairOf(ps, h), BitOf(h));
    t != 0 && Age(f.gen, t) <= age
  }

  /** `keys` were inserted since the reset and `cur` generations have gone by. */
  predicate Inv(ps: Params, f: Filter, keys: seq<Key>, cur: nat) {
    && Valid(ps, f)
    && |keys| == cur * ps.per + f.entries && f.gen == cur % 3 + 1
    && (keys != [] ==> f.entries >= 1)
    && forall i, age :: 0 <= i < |keys| && 0 <= age <= 2 && i >= (cur - age) * ps.per ==> Alive(ps, f, keys[i], age)
  }

  /** An insertion leaves every other key's places as fresh as they were, and the new key's fully fresh. */
  lemma MarkKeepsAlive(ps: Params, f: Filter, key: Key, other: Key, age: nat)
    requires Valid(ps, f) && (other == key || Alive(ps, f, other, age))
    ensures Alive(ps, MarkAll(ps, f, key, ps.funcs), other, age)
  {
    hide Tag, MarkAll;
    var g := MarkAll(ps, f, key, ps.funcs);
    forall n | 0 <= n < ps.funcs ensures AliveAt(ps, g, ps.hash(n, other), age) {
      var h := ps.hash(n, other);
      MarkAllTags(ps, f, key, ps.funcs, PairOf(ps, h), BitOf(h));
      if other == key { assert PointsTo(ps, ps.hash(n, key), PairOf(ps, h), BitOf(h)); }
      else { assert AliveAt(ps, f, h, age); }
    }
  }

  lemma RollAges(ps: Params, f: Filter, key: Key, age: nat)
    requires Valid(ps, f) && f.entries == ps.per && age <= 1 && Alive(ps, f, key, age)
    ensures Valid(ps, Roll(ps, f)) && Alive(ps, Roll(ps, f), key, age + 1)
  {
    hide Tag, Wiped;
    var g := Roll(ps, f);
    forall n | 0 <= n < ps.funcs ensures AliveAt(ps, g, ps.hash(n, key), age + 1) {
      var h := ps.hash(n, key);
      assert AliveAt(ps, f, h, age);
      WipedTags(f, g.gen, PairOf(ps, h), BitOf(h));
      TagOnly(f, g, PairOf(ps, h), BitOf(h));
    }
  }

  lemma TagOnly(f: Filter, g: Filter, p: nat, b: bv64)
    requires 2 * p + 1 < |g.data| && b < 64
    ensures Tag(g, p, b) == Tag(f.(data := g.data), p, b)
  {}

  lemma InsertKeeps(ps: Params, f: Filter, keys: seq<Key>, cur: nat, key: Key)
    requires Inv(ps, f, keys, cur)
    ensures Inv(ps, Insert(ps, f, key), keys + [key], if f.entries == ps.per then cur + 1 else cur)
  {
    hide MarkAll, Alive, Wiped;
    var g := Roll(ps, f);
    var start := g.(entries := g.entries + 1);
    var now := if f.entries == ps.per then cur + 1 else cur;
    MarkAllGen(ps, start, key);
    assert (cur + 1) * ps.per == cur * ps.per + ps.per;
    forall i, age | 0 <= i <= |keys| && 0 <= age <= 2 && i >= (now - age) * ps.per
      ensures Alive(ps, Insert(ps, f, key), (keys + [key])[i], age)
    {
      if i < |keys| {
        if f.entries == ps.per {
          assert (now - 0) * ps.per == |keys|;
          assert now - age == cur - (age - 1);
          RollAges(ps, f, keys[i], age - 1);
        }
        AliveSame(ps, g, start, keys[i], age);
      }
      MarkKeepsAlive(ps, start, key, (keys + [key])[i], age);
    }
  }

  lemma MarkAllGen(ps: Params, f: Filter, key: Key)
    requires Valid(ps, f)
    ensures var g := MarkAll(ps, f, key, ps.funcs); g.gen == f.gen && g.entries == f.entries
  {
    MarkAllTags(ps, f, key, ps.funcs, 0, 0);
  }

  lemma AliveSame(ps: Params, f: Filter, g: Filter, key: Key, age: nat)
    requires Valid(ps, f) && Valid(ps, g) && g.data == f.data && g.gen == f.gen && Alive(ps, f, key, age)
    ensures Alive(ps, g, key, age)
  {
    forall n | 0 <= n < ps.funcs ensures AliveAt(ps, g, ps.hash(n, key), age) { assert AliveAt(ps, f, ps.hash(n, key), age); }
  }

  function InsertAll(ps: Params, keys: seq<Key>): (f: Filter)
    requires ps.Ok()
    ensures Valid(ps, f)
  {
    if keys == [] then Empty(ps)
    else
      var f := InsertAll(ps, keys[..|keys| - 1]);
      InsertValid(ps, f, keys[|keys| - 1]);
      Insert(ps, f, keys[|keys| - 1])
  }

  lemma InsertValid(ps: Params, f: Filter, key: Key)
    requires Valid(ps, f)
    ensures Valid(ps, Insert(ps, f, key))
  {
    var g := Roll(ps, f);
    MarkAllGen(ps, g.(entries := g.entries + 1), key);
  }

  lemma {:induction false} InsertAllKeeps(ps: Params, keys: seq<Key>) returns (cur: nat)
    requires ps.Ok()
    ensures Inv(ps, InsertAll(ps, keys), keys, cur)
  {
    cur := 0;
    if keys != [] {
      var before, key := keys[..|keys| - 1], keys[|keys| - 1];
      cur := InsertAllKeeps(ps, before);
      InsertKeeps(ps, InsertAll(ps, before), before, cur, key);
      if InsertAll(ps, before).entries == ps.per { cur := cur + 1; }
      assert before + [key] == keys;
    }
  }

  /** Entries per generation for a filter built for `elements` keys; the sum is 32 bits wide. */
  function PerGeneration(elements: nat): nat { (elements + 1) % 0x1_0000_0000 / 2 }

  /** A generation holds entries for every size but the smallest and the largest, where the 32-bit sum wraps to zero: the
    * constructor then sizes the filter for no entries at all.
    */
  lemma PerGenerationIff(elements: nat)
    requires elements <= 0xffff_ffff
    ensures PerGeneration(elements) >= 1 <==> 1 <= elements < 0xffff_ffff
    ensures 1 <= elements < 0xffff_ffff ==> elements <= 2 * PerGeneration(elements) <= elements + 1
    ensures PerGeneration(0xffff_ffff) == 0
  {
    if elements < 0xffff_ffff { assert (elements + 1) % 0x1_0000_0000 == elements + 1; }
  }

  /** After any insertions, each of the last `elements` keys is found. */
  lemma RememberedSince(ps: Params, elements: nat, keys: seq<Key>, i: nat)
    requires ps.Ok() && ps.per == PerGeneration(elements) && elements <= 0xffff_ffff
    requires i < |keys| && i >= |keys| - elements
    ensures Contains(ps, InsertAll(ps, keys), keys[i])
  {
    PerGenerationIff(elements);
    var cur := InsertAllKeeps(ps, keys);
    var f := InsertAll(ps, keys);
    assert (cur - 2) * ps.per == cur * ps.per - 2 * ps.per;
    assert Alive(ps, f, keys[i], 2);
    forall n | 0 <= n < ps.funcs ensures var h := ps.hash(n, keys[i]); Tag(f, PairOf(ps, h), BitOf(h)) != 0 {
      assert AliveAt(ps, f, ps.hash(n, keys[i]), 2);
    }
  }
}
