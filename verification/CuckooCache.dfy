/** The cuckoo cache object: a table, bit-packed collection flags and epoch flags, updated in place. */
module CuckooCache {
  import opened Prelude
  import opened Cuckoo
  import Arith

  // ---------------------------------------------------------------- bit-packed flags

  function Mask(k: nat): bv8
    requires k < 8
  {
    if k == 0 then 1 else if k == 1 then 2 else if k == 2 then 4 else if k == 3 then 8
    else if k == 4 then 16 else if k == 5 then 32 else if k == 6 then 64 else 128
  }

  predicate BitOf(m: bv8, k: nat)
    requires k < 8
  {
    m & Mask(k) != 0
  }

  function WithBit(m: bv8, k: nat, b: bool): bv8
    requires k < 8
  {
    if b then m | Mask(k) else m & !Mask(k)
  }

  /** Writing one bit changes that bit and no other. */
  lemma WithBitOk(m: bv8, j: nat, b: bool, k: nat)
    requires j < 8 && k < 8
    ensures BitOf(WithBit(m, j, b), k) == if j == k then b else BitOf(m, k)
  {}

  class Cache {
    const table: array<Element>
    const flags: array<bv8>
    const epochs: array<bool>
    const hash: (nat, Element) -> nat
    const depthLimit: nat
    const epochSize: nat
    var counter: nat

    ghost predicate Shape() {
      && table.Length > 0 && epochs.Length == table.Length && flags.Length == (table.Length + 7) / 8
      && table as object != flags && table as object != epochs && flags as object != epochs
      && depthLimit >= 1 && epochSize >= 1
    }

    function At(i: nat): Slot
      requires Shape() && i < table.Length
      reads table, flags, epochs
    {
      Slot(table[i], BitOf(flags[i / 8], i % 8), epochs[i])
    }

    ghost function Slots(): (s: seq<Slot>)
      requires Shape()
      reads table, flags, epochs
      ensures |s| == table.Length && forall i :: 0 <= i < |s| ==> s[i] == At(i)
    {
      seq(table.Length, i requires 0 <= i < table.Length reads table, flags, epochs => At(i))
    }

    ghost function Value(): State
      requires Shape()
      reads this, table, flags, epochs
    {
      State(Slots(), counter)
    }

    /** `setup`: `depth` is the base-two logarithm of the number of slots. */
    constructor (depth: nat, hash: (nat, Element) -> nat)
      requires 1 <= depth <= 31
      ensures Shape() && fresh(table) && fresh(flags) && fresh(epochs)
      ensures this.hash == hash && depthLimit == depth && table.Length == Arith.Pow2(depth)
      ensures Value() == Initial(Arith.Pow2(depth), epochSize)
    {
      var size := Arith.Pow2(depth);
      table := new Element[size](_ => DEFAULT);
      flags := new bv8[(size + 7) / 8](_ => 0xff);
      epochs := new bool[size](_ => false);
      this.hash := hash;
      depthLimit := depth;
      epochSize := Max(1, (45 * size) % 0x1_0000_0000 / 100);
      counter := Max(1, (45 * size) % 0x1_0000_0000 / 100);
      new;
      assert forall k :: 0 <= k < 8 ==> BitOf(0xff, k);
    }

    function AllLocs(e: Element): (locs: seq<nat>)
      requires Shape()
      ensures |locs| == HASHES && forall k :: 0 <= k < HASHES ==> locs[k] < table.Length
    {
      Locs(hash, table.Length, e)
    }

    method SetFlag(n: nat, dead: bool)
      requires Shape() && n < table.Length
      modifies flags
      ensures forall i :: 0 <= i < table.Length ==> At(i) == if i == n then old(At(n)).(dead := dead) else old(At(i))
      ensures Slots() == old(Slots())[n := old(At(n)).(dead := dead)]
    {
      hide BitOf, Mask;
      ghost var mem := flags[n / 8];
      flags[n / 8] := WithBit(flags[n / 8], n % 8, dead);
      forall i | 0 <= i < table.Length
        ensures At(i) == if i == n then old(At(n)).(dead := dead) else old(At(i))
      {
        if i / 8 == n / 8 {
          WithBitOk(mem, n % 8, dead, i % 8);
        }
      }
      ghost var want := old(Slots())[n := old(At(n)).(dead := dead)];
      assert forall i :: 0 <= i < table.Length ==> At(i) == want[i];
    }

    method Put(n: nat, e: Element, recent: bool)
      requires Shape() && n < table.Length
      modifies table, flags, epochs
      ensures Slots() == old(Slots())[n := Slot(e, false, recent)]
    {
      table[n] := e;
      assert forall i :: 0 <= i < table.Length && i != n ==> At(i) == old(At(i));
      SetFlag(n, false);
      assert forall i :: 0 <= i < table.Length && i != n ==> At(i) == old(At(i));
      epochs[n] := recent;
      ghost var want := old(Slots())[n := Slot(e, false, recent)];
      assert forall i :: 0 <= i < table.Length ==> At(i) == want[i];
    }

    method CountEpoch() returns (n: nat)
      requires Shape()
      ensures n == CountRecent(Slots())
    {
      n := 0;
      for i := 0 to table.Length
        invariant n == CountRecent(Slots()[..i])
      {
        assert Slots()[..i + 1][..i] == Slots()[..i];
        n := n + if epochs[i] && !BitOf(flags[i / 8], i % 8) then 1 else 0;
      }
      assert Slots()[..table.Length] == Slots();
    }

    method AgeEpochs()
      requires Shape()
      modifies flags, epochs
      ensures Slots() == Aged(old(Slots()))
    {
      ghost var was := Slots();
      for i := 0 to table.Length
        invariant forall j :: 0 <= j < table.Length ==> At(j) == if j < i then Aged(was)[j] else was[j]
      {
        assert At(i) == was[i];
        if epochs[i] {
          epochs[i] := false;
        } else {
          SetFlag(i, true);
        }
      }
    }

    method CheckEpoch()
      requires Shape()
      modifies `counter, flags, epochs
      ensures (Slots(), counter) == EpochCheck(old(Slots()), old(counter), epochSize)
    {
      if counter != 0 {
        counter := counter - 1;
        return;
      }
      var unused := CountEpoch();
      if unused >= epochSize {
        AgeEpochs();
        counter := epochSize;
      } else {
        counter := Max(1, Max(epochSize / 16, epochSize - unused));
      }
    }

    method FindElement(locs: seq<nat>, e: Element) returns (k: nat)
      requires Shape() && |locs| == HASHES && forall j :: 0 <= j < HASHES ==> locs[j] < table.Length
      ensures k == FirstWith(Slots(), locs, e)
    {
      k := 0;
      while k < HASHES && table[locs[k]] != e
        invariant k <= HASHES && forall j :: 0 <= j < k ==> table[locs[j]] != e
      {
        k := k + 1;
      }
    }

    method FindDead(locs: seq<nat>) returns (k: nat)
      requires Shape() && |locs| == HASHES && forall j :: 0 <= j < HASHES ==> locs[j] < table.Length
      ensures k == FirstDead(Slots(), locs)
    {
      k := 0;
      while k < HASHES && !BitOf(flags[locs[k] / 8], locs[k] % 8)
        invariant k <= HASHES && forall j :: 0 <= j < k ==> !At(locs[j]).dead
      {
        k := k + 1;
      }
    }

    method Contains(e: Element, erase: bool) returns (found: bool)
      requires Shape()
      modifies flags
      ensures found == Cuckoo.Contains(hash, old(Slots()), e)
      ensures Value() == Next(hash, epochSize, depthLimit, old(Value()), Lookup(e, erase))
    {
      var locs := AllLocs(e);
      var k := FindElement(locs, e);
      found := k < HASHES;
      if found && erase {
        SetFlag(locs[k], true);
      }
    }

    /** Exchange the element in hand with the one in slot `n`, epoch flags too. */
    method Swap(n: nat, e: Element, recent: bool) returns (out: Element, outRecent: bool)
      requires Shape() && n < table.Length && !At(n).dead
      modifies table, epochs
      ensures Slots() == old(Slots())[n := Slot(e, false, recent)]
      ensures Slot(out, false, outRecent) == old(At(n))
    {
      out, outRecent := table[n], epochs[n];
      table[n], epochs[n] := e, recent;
      ghost var want := old(Slots())[n := Slot(e, false, recent)];
      assert forall i :: 0 <= i < table.Length ==> At(i) == want[i];
    }

    /** One round of the chain: drop the hand into a dead slot, or swap it with the next candidate. */
    method Round(hand: Element, recent: bool, lastLoc: nat) returns (done: bool, out: Element, outRecent: bool, loc: nat)
      requires Shape()
      modifies table, flags, epochs
      ensures forall left: nat :: left > 0 ==>
                Evict(hash, old(Slots()), Slot(hand, false, recent), lastLoc, left)
                == if done then (Slots(), Slot(out, true, outRecent)) else Evict(hash, Slots(), Slot(out, false, outRecent), loc, left - 1)
    {
      var locs := AllLocs(hand);
      var d := FindDead(locs);
      out, outRecent, loc := hand, recent, lastLoc;
      done := d < HASHES;
      if done {
        Put(locs[d], hand, recent);
      } else {
        loc := NextLoc(locs, lastLoc);
        out, outRecent := Swap(loc, hand, recent);
      }
    }

    /** The eviction chain: at most `depthLimit` rounds, the element left in hand being dropped. */
    method EvictChain(e: Element)
      requires Shape()
      modifies table, flags, epochs
      ensures Slots() == Evict(hash, old(Slots()), Slot(e, false, true), table.Length, depthLimit).0
    {
      var done, hand, recent := false, e, true;
      var lastLoc: nat := table.Length;
      ghost var goal := Evict(hash, Slots(), Slot(e, false, true), table.Length, depthLimit).0;
      var depth: nat := 0;
      while depth < depthLimit && !done
        invariant depth <= depthLimit
        invariant goal == if done then Slots() else Evict(hash, Slots(), Slot(hand, false, recent), lastLoc, depthLimit - depth).0
      {
        done, hand, recent, lastLoc := Round(hand, recent, lastLoc);
        depth := depth + 1;
      }
    }

    method Insert(e: Element)
      requires Shape()
      modifies `counter, table, flags, epochs
      ensures Value() == Next(hash, epochSize, depthLimit, old(Value()), Cuckoo.Insert(e))
    {
      hide Evict;
      CheckEpoch();
      var locs := AllLocs(e);
      var k := FindElement(locs, e);
      if k < HASHES {
        Put(locs[k], e, true);
      } else {
        EvictChain(e);
      }
    }
  }
}
