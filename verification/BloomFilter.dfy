/** The rolling Bloom filter as an object over an array of words. */
module BloomFilter {
  import opened Bloom

  lemma WipedPair(data: seq<bv64>, gen: nat, q: nat)
    requires |data| % 2 == 0 && 2 * q + 1 < |data|
    ensures var m := KeepMask(data[2 * q], data[2 * q + 1], gen);
            Wiped(data, gen)[2 * q] == And(data[2 * q], m) && Wiped(data, gen)[2 * q + 1] == And(data[2 * q + 1], m)
  {
    hide KeepMask, And;
  }

  class RollingBloomFilter {
    const per: nat
    const funcs: nat
    const data: array<bv64>
    var entries: nat
    var gen: nat
    /** The hash functions under the current tweak. */
    var hash: (nat, Key) -> bv32

    function Settings(): Params
      reads this
    {
      Params(per, funcs, hash, data.Length)
    }

    function Value(): Filter
      reads this, data
    {
      Filter(entries, gen, data[..])
    }

    ghost predicate Ok()
      reads this, data
    {
      Valid(Settings(), Value())
    }

    /** Built for `elements` keys; the number of hash functions and of bits is worked out by the caller. The filter can be
      * used exactly when its generations hold an entry and it has a bit.
      */
    constructor (elements: nat, funcs: nat, bits: nat, hash: (nat, Key) -> bv32)
      requires elements <= 0xffff_ffff
      ensures per == PerGeneration(elements) && this.funcs == funcs && fresh(data)
      ensures Value() == Empty(Settings()) && (Ok() <==> 1 <= elements < 0xffff_ffff && bits >= 1)
    {
      per := (elements + 1) % 0x1_0000_0000 / 2;
      this.funcs := funcs;
      data := new bv64[(bits + 63) / 64 * 2];
      this.hash := hash;
      entries, gen := 0, 1;
      new;
      Reset(hash);
      PerGenerationIff(elements);
    }

    method Reset(tweaked: (nat, Key) -> bv32)
      modifies this, data
      ensures hash == tweaked && Value() == Empty(Settings()) && (Ok() <==> Settings().Ok())
    {
      hash, entries, gen := tweaked, 0, 1;
      for i := 0 to data.Length
        invariant forall j :: 0 <= j < i ==> data[j] == 0
        invariant hash == tweaked && entries == 0 && gen == 1
      {
        data[i] := 0;
      }
    }

    /** Two words at a time, drop the bits that spell `gen`. */
    method Wipe()
      requires data.Length % 2 == 0
      modifies data
      ensures data[..] == Wiped(old(data[..]), gen)
    {
      hide KeepMask, And, Wiped, WipedWord;
      ghost var was := data[..];
      ghost var goal := Wiped(was, gen);
      var p := 0;
      while p < data.Length
        invariant p <= data.Length && p % 2 == 0
        invariant forall i :: 0 <= i < p ==> data[i] == goal[i]
        invariant forall i :: p <= i < data.Length ==> data[i] == was[i]
        decreases data.Length - p
      {
        WipedPair(was, gen, p / 2);
        var p1, p2 := data[p], data[p + 1];
        var mask := KeepMask(p1, p2, gen);
        data[p] := And(p1, mask);
        data[p + 1] := And(p2, mask);
        p := p + 2;
      }
    }

    method SetPlace(h: bv32)
      requires Ok()
      modifies data
      ensures Ok() && Value() == Mark(Settings(), old(Value()), h)
    {
      hide SetBit;
      FastModInRange(h, data.Length);
      var bit := BitOf(h);
      var pos := FastMod(h, data.Length);
      data[pos - pos % 2] := SetBit(data[pos - pos % 2], bit, Low(gen));
      data[pos - pos % 2 + 1] := SetBit(data[pos - pos % 2 + 1], bit, High(gen));
    }

    method RollOver()
      requires Ok()
      modifies this, data
      ensures hash == old(hash) && Ok() && Value() == Roll(Settings(), old(Value()))
    {
      if entries == per {
        entries := 0;
        gen := gen + 1;
        if gen == 4 { gen := 1; }
        Wipe();
      }
    }

    method Insert(key: Key)
      requires Ok()
      modifies this, data
      ensures hash == old(hash) && Ok() && Value() == Bloom.Insert(Settings(), old(Value()), key)
    {
      hide Mark;
      RollOver();
      entries := entries + 1;
      ghost var start := Value();
      for n := 0 to funcs
        invariant hash == old(hash) && Ok() && Value() == MarkAll(Settings(), start, key, n)
      {
        SetPlace(hash(n, key));
      }
    }

    method Contains(key: Key) returns (found: bool)
      requires Ok()
      ensures found <==> Bloom.Contains(Settings(), Value(), key)
    {
      hide Bit, Or;
      for n := 0 to funcs
        invariant forall i :: 0 <= i < n ==> var h := hash(i, key); Tag(Value(), PairOf(Settings(), h), BitOf(h)) != 0
      {
        var h := hash(n, key);
        FastModInRange(h, data.Length);
        var bit := BitOf(h);
        var pos := FastMod(h, data.Length);
        OrBit(data[pos - pos % 2], data[pos - pos % 2 + 1], bit);
        if !Bit(Or(data[pos - pos % 2], data[pos - pos % 2 + 1]), bit) { return false; }
      }
      return true;
    }
  }
}
