/** The signature cache's cuckoo table: its slots as a value, and what an insert may do to them.
  * `CuckooCache.dfy` holds the object that works in place on arrays.
  */
module Cuckoo {
  import opened Prelude

  /** Elements are 256-bit digests. */
  type Element = int

  /** What a freshly resized table is filled with. */
  const DEFAULT: Element := 0

  const HASHES := 8

  /** `dead` is the collection flag, `recent` the epoch flag. */
  datatype Slot = Slot(elem: Element, dead: bool, recent: bool)

  /** The eight candidate slots of an element in a table of `size` slots (a power of two). */
  function Locs(hash: (nat, Element) -> nat, size: nat, e: Element): (locs: seq<nat>)
    requires size > 0
    ensures |locs| == HASHES && forall k :: 0 <= k < HASHES ==> locs[k] < size && locs[k] == hash(k, e) % size
  {
    seq(HASHES, k requires 0 <= k < HASHES => hash(k, e) % size)
  }

  // ---------------------------------------------------------------- live elements

  /** The live elements whose epoch flag is `r`, with multiplicity. */
  ghost function Alive(s: seq<Slot>, r: bool): multiset<Element> {
    if s == [] then multiset{}
    else Alive(s[..|s| - 1], r) + AliveIn(s[|s| - 1], r)
  }

  ghost function AliveIn(x: Slot, r: bool): multiset<Element> {
    if !x.dead && x.recent == r then multiset{x.elem} else multiset{}
  }

  /** Adding `l` to both sides. */
  lemma Exchange(a: multiset<Element>, b: multiset<Element>, l: multiset<Element>, x: multiset<Element>, y: multiset<Element>)
    requires a + x == b + y
    ensures (a + l) + x == (b + l) + y
  {
    forall e ensures ((a + l) + x)[e] == ((b + l) + y)[e] {
      assert (a + x)[e] == (b + y)[e];
    }
  }

  lemma {:induction false} AliveUpdate(s: seq<Slot>, r: bool, i: nat, x: Slot)
    requires i < |s|
    ensures Alive(s[i := x], r) + AliveIn(s[i], r) == Alive(s, r) + AliveIn(x, r)
  {
    hide AliveIn;
    var n := |s| - 1;
    var t := s[i := x];
    var a, b, l := Alive(s[..n], r), Alive(t[..n], r), AliveIn(s[n], r);
    assert Alive(s, r) == a + l && Alive(t, r) == b + AliveIn(t[n], r);
    if i == n {
      assert t[..n] == s[..n];
      assert (a + AliveIn(x, r)) + l == (a + l) + AliveIn(x, r);
    } else {
      assert t[..n] == s[..n][i := x] && t[n] == s[n];
      AliveUpdate(s[..n], r, i, x);
      Exchange(b, a, l, AliveIn(s[i], r), AliveIn(x, r));
    }
  }

  /** What `epoch_check` counts. */
  function CountRecent(s: seq<Slot>): nat {
    if s == [] then 0 else CountRecent(s[..|s| - 1]) + if s[|s| - 1].recent && !s[|s| - 1].dead then 1 else 0
  }

  lemma {:induction false} CountIsAlive(s: seq<Slot>)
    ensures CountRecent(s) == |Alive(s, true)|
  {
    if s != [] {
      CountIsAlive(s[..|s| - 1]);
    }
  }

  // ---------------------------------------------------------------- epochs

  function Max(a: int, b: int): int { if a < b then b else a }

  /** Ageing: the current epoch becomes the old one and the old one may be discarded. */
  function Aged(s: seq<Slot>): (t: seq<Slot>) {
    seq(|s|, i requires 0 <= i < |s| => if s[i].recent then s[i].(recent := false) else s[i].(dead := true))
  }

  /** `epoch_check`: slots and counter after it. */
  function EpochCheck(s: seq<Slot>, counter: nat, epochSize: nat): (seq<Slot>, nat) {
    if counter != 0 then (s, counter - 1)
    else if CountRecent(s) >= epochSize then (Aged(s), epochSize)
    else (s, Max(1, Max(epochSize / 16, epochSize - CountRecent(s))))
  }

  lemma {:induction false} AgedAlive(s: seq<Slot>)
    ensures Alive(Aged(s), true) == multiset{} && Alive(Aged(s), false) == Alive(s, true)
  {
    if s != [] {
      AgedAlive(s[..|s| - 1]);
      assert Aged(s)[..|s| - 1] == Aged(s[..|s| - 1]);
    }
  }

  // ---------------------------------------------------------------- placement

  /** Every real element sits in one of its own slots, and only once. */
  ghost predicate Placed(hash: (nat, Element) -> nat, s: seq<Slot>) {
    && |s| > 0
    && (forall i :: 0 <= i < |s| && s[i].elem != DEFAULT ==> i in Locs(hash, |s|, s[i].elem))
    && (forall i, j :: 0 <= i < j < |s| && s[i].elem != DEFAULT ==> s[i].elem != s[j].elem)
  }

  predicate Holds(s: seq<Slot>, e: Element) {
    exists i :: 0 <= i < |s| && s[i].elem == e
  }

  /** What `contains` answers: some candidate slot holds the element. */
  predicate Contains(hash: (nat, Element) -> nat, s: seq<Slot>, e: Element)
    requires |s| > 0
  {
    exists k :: 0 <= k < HASHES && s[Locs(hash, |s|, e)[k]].elem == e
  }

  /** Looking at eight slots is as good as looking at all of them. */
  lemma ContainsIsMembership(hash: (nat, Element) -> nat, s: seq<Slot>, e: Element)
    requires Placed(hash, s) && e != DEFAULT
    ensures Contains(hash, s, e) <==> Holds(s, e)
  {
    if i :| 0 <= i < |s| && s[i].elem == e {
      var locs := Locs(hash, |s|, e);
      assert i in locs;
      var k :| 0 <= k < |locs| && locs[k] == i;
      assert s[locs[k]].elem == e;
    }
  }

  predicate InRange(s: seq<Slot>, locs: seq<nat>) {
    forall k :: 0 <= k < |locs| ==> locs[k] < |s|
  }

  /** The first candidate slot that holds `e`, or the number of candidates. */
  function FirstWith(s: seq<Slot>, locs: seq<nat>, e: Element): (k: nat)
    requires InRange(s, locs)
    ensures k <= |locs| && (k < |locs| ==> s[locs[k]].elem == e)
    ensures forall j :: 0 <= j < k ==> s[locs[j]].elem != e
  {
    if locs == [] || s[locs[0]].elem == e then 0
    else
      var k := FirstWith(s, locs[1..], e) + 1;
      assert forall j :: 0 <= j < k ==> j == 0 || locs[j] == locs[1..][j - 1];
      k
  }

  /** The first candidate slot that may be overwritten, or the number of candidates. */
  function FirstDead(s: seq<Slot>, locs: seq<nat>): (k: nat)
    requires InRange(s, locs)
    ensures k <= |locs| && (k < |locs| ==> s[locs[k]].dead)
    ensures forall j :: 0 <= j < k ==> !s[locs[j]].dead
  {
    if locs == [] || s[locs[0]].dead then 0
    else
      var k := FirstDead(s, locs[1..]) + 1;
      assert forall j :: 0 <= j < k ==> j == 0 || locs[j] == locs[1..][j - 1];
      k
  }

  /** The live elements of `t` and the one in hand are those of `s` and `e`, epoch flags included. */
  ghost predicate Conserved(s: seq<Slot>, e: Element, t: seq<Slot>, hand: Slot) {
    forall r :: Alive(t, r) + AliveIn(hand, r) == Alive(s, r) + AliveIn(Slot(e, false, true), r)
  }

  // ---------------------------------------------------------------- inserting

  /** Where the chain goes on: the candidate after the last one looked at. */
  function NextLoc(locs: seq<nat>, lastLoc: nat): nat
    requires |locs| == HASHES
  {
    locs[(1 + IndexOf(locs, lastLoc)) % HASHES]
  }

  /** At most `depth` rounds: the hand goes to a dead slot of its own, or changes places with the next candidate.
    * The hand that is left comes back too; it is dead when it was placed, and otherwise dropped.
    */
  function Evict(hash: (nat, Element) -> nat, s: seq<Slot>, hand: Slot, lastLoc: nat, depth: nat): (r: (seq<Slot>, Slot))
    requires |s| > 0
    ensures |r.0| == |s|
    decreases depth
  {
    if depth == 0 then (s, hand)
    else
      var locs := Locs(hash, |s|, hand.elem);
      var d, loc := FirstDead(s, locs), NextLoc(locs, lastLoc);
      if d < HASHES then (s[locs[d] := hand], hand.(dead := true))
      else Evict(hash, s[loc := hand], s[loc], loc, depth - 1)
  }

  /** `insert` after its epoch check: a known element is kept and rejuvenated. */
  function Inserted(hash: (nat, Element) -> nat, s: seq<Slot>, e: Element, depth: nat): (t: seq<Slot>)
    requires |s| > 0
    ensures |t| == |s|
  {
    var locs := Locs(hash, |s|, e);
    var k := FirstWith(s, locs, e);
    if k < HASHES then s[locs[k] := Slot(e, false, true)] else Evict(hash, s, Slot(e, false, true), |s|, depth).0
  }

  /** `std::find`: the first index of `x`, or the length. */
  function IndexOf(locs: seq<nat>, x: nat): (k: nat)
    ensures k <= |locs| && (k < |locs| ==> locs[k] == x)
  {
    if locs == [] || locs[0] == x then 0 else 1 + IndexOf(locs[1..], x)
  }

  /** A real element in hand is nowhere in the table. */
  ghost predicate Absent(s: seq<Slot>, e: Element) {
    e == DEFAULT || !Holds(s, e)
  }

  /** Part-way through inserting `e0` into `s0`: slots `s`, with `hand` still to be placed (if not dead). */
  ghost predicate Chain(hash: (nat, Element) -> nat, s0: seq<Slot>, e0: Element, s: seq<Slot>, hand: Slot) {
    && Placed(hash, s)
    && (!hand.dead ==> Absent(s, hand.elem))
    && Conserved(s0, e0, s, hand)
  }

  lemma NotFound(hash: (nat, Element) -> nat, s: seq<Slot>, e: Element)
    requires Placed(hash, s) && FirstWith(s, Locs(hash, |s|, e), e) == HASHES
    ensures Absent(s, e)
  {
    if e != DEFAULT {
      ContainsIsMembership(hash, s, e);
    }
  }

  lemma RejuvenateKeeps(hash: (nat, Element) -> nat, s: seq<Slot>, e: Element, n: nat)
    requires Placed(hash, s) && n < |s| && s[n].elem == e
    ensures Placed(hash, s[n := Slot(e, false, true)])
  {
    var t := s[n := Slot(e, false, true)];
    assert forall i :: 0 <= i < |s| ==> t[i].elem == s[i].elem;
  }

  /** Writing an absent element into one of its own slots keeps the table well placed. */
  lemma WriteKeepsPlaced(hash: (nat, Element) -> nat, s: seq<Slot>, x: Slot, n: nat)
    requires Placed(hash, s) && Absent(s, x.elem) && n < |s| && n in Locs(hash, |s|, x.elem)
    ensures Placed(hash, s[n := x])
  {
    var t := s[n := x];
    forall i | 0 <= i < |t| && t[i].elem != DEFAULT ensures i in Locs(hash, |t|, t[i].elem) {
      assert i != n ==> t[i] == s[i];
    }
    forall i, j | 0 <= i < j < |t| && t[i].elem != DEFAULT ensures t[i].elem != t[j].elem {
      assert i != n ==> t[i] == s[i];
      assert j != n ==> t[j] == s[j];
    }
  }

  lemma PutKeeps(hash: (nat, Element) -> nat, s0: seq<Slot>, e0: Element, s: seq<Slot>, e: Element, recent: bool, n: nat)
    requires n < |s| && n in Locs(hash, |s|, e) && s[n].dead
    requires Chain(hash, s0, e0, s, Slot(e, false, recent))
    ensures Chain(hash, s0, e0, s[n := Slot(e, false, recent)], Slot(e, true, recent))
  {
    WriteKeepsPlaced(hash, s, Slot(e, false, recent), n);
    forall r ensures Alive(s[n := Slot(e, false, recent)], r) == Alive(s, r) + AliveIn(Slot(e, false, recent), r) {
      AliveUpdate(s, r, n, Slot(e, false, recent));
    }
  }

  lemma SwapKeeps(hash: (nat, Element) -> nat, s0: seq<Slot>, e0: Element, s: seq<Slot>, e: Element, recent: bool, n: nat)
    requires n < |s| && n in Locs(hash, |s|, e) && !s[n].dead
    requires Chain(hash, s0, e0, s, Slot(e, false, recent))
    ensures Chain(hash, s0, e0, s[n := Slot(e, false, recent)], s[n])
  {
    var t := s[n := Slot(e, false, recent)];
    WriteKeepsPlaced(hash, s, Slot(e, false, recent), n);
    forall r ensures Alive(t, r) + AliveIn(s[n], r) == Alive(s, r) + AliveIn(Slot(e, false, recent), r) {
      AliveUpdate(s, r, n, Slot(e, false, recent));
    }
  }

  /** Whatever chain is followed: placement is kept and live elements are conserved. */
  lemma {:induction false} EvictKeeps(hash: (nat, Element) -> nat, s0: seq<Slot>, e0: Element, s: seq<Slot>, hand: Slot,
                                      lastLoc: nat, depth: nat)
    requires Chain(hash, s0, e0, s, hand) && !hand.dead
    ensures var (t, out) := Evict(hash, s, hand, lastLoc, depth); Chain(hash, s0, e0, t, out)
    decreases depth
  {
    hide Chain;
    ChainShape(hash, s0, e0, s, hand);
    if depth > 0 {
      var locs := Locs(hash, |s|, hand.elem);
      var d, loc := FirstDead(s, locs), NextLoc(locs, lastLoc);
      assert hand == Slot(hand.elem, false, hand.recent);
      if d < HASHES {
        PutKeeps(hash, s0, e0, s, hand.elem, hand.recent, locs[d]);
      } else {
        SwapKeeps(hash, s0, e0, s, hand.elem, hand.recent, loc);
        EvictKeeps(hash, s0, e0, s[loc := hand], s[loc], loc, depth - 1);
      }
    }
  }

  lemma ChainShape(hash: (nat, Element) -> nat, s0: seq<Slot>, e0: Element, s: seq<Slot>, hand: Slot)
    requires Chain(hash, s0, e0, s, hand)
    ensures |s| > 0
  {}

  /** An insert leaves every element unique and in one of its own slots. */
  lemma InsertedPlaced(hash: (nat, Element) -> nat, s: seq<Slot>, e: Element, depth: nat)
    requires Placed(hash, s)
    ensures Placed(hash, Inserted(hash, s, e, depth))
  {
    hide Evict;
    var locs := Locs(hash, |s|, e);
    var k := FirstWith(s, locs, e);
    if k < HASHES {
      RejuvenateKeeps(hash, s, e, locs[k]);
    } else {
      NotFound(hash, s, e);
      EvictKeeps(hash, s, e, s, Slot(e, false, true), |s|, depth);
    }
  }

  /** Live elements after inserting an absent one, plus the one dropped, are live elements before plus the new one. */
  lemma InsertedConserves(hash: (nat, Element) -> nat, s: seq<Slot>, e: Element, depth: nat)
    requires Placed(hash, s) && FirstWith(s, Locs(hash, |s|, e), e) == HASHES
    ensures Conserved(s, e, Inserted(hash, s, e, depth), Evict(hash, s, Slot(e, false, true), |s|, depth).1)
  {
    hide Evict;
    NotFound(hash, s, e);
    EvictKeeps(hash, s, e, s, Slot(e, false, true), |s|, depth);
  }

  // ---------------------------------------------------------------- the load bound

  function Bound(epochSize: nat): nat {
    epochSize + Max(1, epochSize / 16)
  }

  /** Recent live slots plus the counter never exceed the bound; old live slots neither. */
  ghost predicate Loaded(s: seq<Slot>, counter: nat, epochSize: nat) {
    && epochSize >= 1
    && |Alive(s, true)| + counter <= Bound(epochSize)
    && |Alive(s, false)| <= Bound(epochSize)
  }

  /** The epoch check leaves room for one more recent element. */
  lemma EpochCheckMakesRoom(s: seq<Slot>, counter: nat, epochSize: nat)
    requires Loaded(s, counter, epochSize)
    ensures var (t, c) := EpochCheck(s, counter, epochSize);
            |t| == |s| && |Alive(t, true)| + 1 + c <= Bound(epochSize) && |Alive(t, false)| <= Bound(epochSize)
  {
    CountIsAlive(s);
    if counter == 0 && CountRecent(s) >= epochSize {
      AgedAlive(s);
    }
  }

  lemma EpochCheckPlaced(hash: (nat, Element) -> nat, s: seq<Slot>, counter: nat, epochSize: nat)
    requires Placed(hash, s)
    ensures Placed(hash, EpochCheck(s, counter, epochSize).0)
  {
    var t := EpochCheck(s, counter, epochSize).0;
    assert forall i :: 0 <= i < |s| ==> t[i].elem == s[i].elem;
  }

  /** An insert adds at most one recent live element and no old one. */
  lemma InsertedAlive(hash: (nat, Element) -> nat, s: seq<Slot>, e: Element, depth: nat)
    requires |s| > 0 && Placed(hash, s)
    ensures var t := Inserted(hash, s, e, depth);
            |Alive(t, true)| <= |Alive(s, true)| + 1 && |Alive(t, false)| <= |Alive(s, false)|
  {
    hide Evict, Placed, Alive;
    var locs, t := Locs(hash, |s|, e), Inserted(hash, s, e, depth);
    var k := FirstWith(s, locs, e);
    if k < HASHES {
      var i := locs[k];
      AliveUpdate(s, true, i, Slot(e, false, true));
      AliveUpdate(s, false, i, Slot(e, false, true));
      assert |Alive(t, true)| + |AliveIn(s[i], true)| == |Alive(t, true) + AliveIn(s[i], true)|;
      assert |Alive(t, false)| + |AliveIn(s[i], false)| == |Alive(t, false) + AliveIn(s[i], false)|;
    } else {
      var dropped := Evict(hash, s, Slot(e, false, true), |s|, depth).1;
      InsertedConserves(hash, s, e, depth);
      assert Alive(t, true) + AliveIn(dropped, true) == Alive(s, true) + multiset{e};
      assert |Alive(t, true)| + |AliveIn(dropped, true)| == |Alive(s, true) + multiset{e}|;
      assert Alive(t, false) + AliveIn(dropped, false) == Alive(s, false);
      assert |Alive(t, false)| + |AliveIn(dropped, false)| == |Alive(s, false)|;
    }
  }

  /** Marking a slot discardable only lowers the load. */
  lemma EraseAlive(s: seq<Slot>, i: nat, r: bool)
    requires i < |s|
    ensures |Alive(s[i := s[i].(dead := true)], r)| <= |Alive(s, r)|
  {
    var t := s[i := s[i].(dead := true)];
    AliveUpdate(s, r, i, s[i].(dead := true));
    assert Alive(t, r) + AliveIn(s[i], r) == Alive(s, r);
  }

  // ---------------------------------------------------------------- runs

  datatype State = State(slots: seq<Slot>, counter: nat)

  datatype Op = Insert(e: Element) | Lookup(e: Element, erase: bool)

  function Initial(size: nat, epochSize: nat): State {
    State(seq(size, _ => Slot(DEFAULT, true, false)), epochSize)
  }

  /** One public call on a cache with chains of at most `depth` rounds. */
  function Next(hash: (nat, Element) -> nat, epochSize: nat, depth: nat, a: State, op: Op): (b: State)
    requires |a.slots| > 0
    ensures |b.slots| == |a.slots|
  {
    match op
    case Insert(e) =>
      var (s, c) := EpochCheck(a.slots, a.counter, epochSize);
      State(Inserted(hash, s, e, depth), c)
    case Lookup(e, erase) => State(LookedUp(a.slots, Locs(hash, |a.slots|, e), e, erase), a.counter)
  }

  /** `contains`, which may mark the slot it found as discardable. */
  function LookedUp(s: seq<Slot>, locs: seq<nat>, e: Element, erase: bool): (t: seq<Slot>)
    requires InRange(s, locs)
  {
    var k := FirstWith(s, locs, e);
    if k < |locs| && erase then s[locs[k] := s[locs[k]].(dead := true)] else s
  }

  ghost predicate Good(hash: (nat, Element) -> nat, size: nat, epochSize: nat, a: State) {
    |a.slots| == size && Placed(hash, a.slots) && Loaded(a.slots, a.counter, epochSize)
  }

  lemma InsertKeepsGood(hash: (nat, Element) -> nat, size: nat, epochSize: nat, depth: nat, a: State, e: Element)
    requires size > 0 && Good(hash, size, epochSize, a)
    ensures Good(hash, size, epochSize, Next(hash, epochSize, depth, a, Insert(e)))
  {
    hide Inserted, Placed, Alive;
    var s := EpochCheck(a.slots, a.counter, epochSize).0;
    EpochCheckMakesRoom(a.slots, a.counter, epochSize);
    EpochCheckPlaced(hash, a.slots, a.counter, epochSize);
    InsertedPlaced(hash, s, e, depth);
    InsertedAlive(hash, s, e, depth);
  }

  lemma LookupKeepsGood(hash: (nat, Element) -> nat, size: nat, epochSize: nat, depth: nat, a: State, e: Element, erase: bool)
    requires size > 0 && Good(hash, size, epochSize, a)
    ensures Good(hash, size, epochSize, Next(hash, epochSize, depth, a, Lookup(e, erase)))
  {
    hide Alive, Placed, Inserted;
    var locs := Locs(hash, size, e);
    var k := FirstWith(a.slots, locs, e);
    if k < HASHES && erase {
      EraseAlive(a.slots, locs[k], true);
      EraseAlive(a.slots, locs[k], false);
      MarkPlaced(hash, a.slots, locs[k]);
    }
  }

  lemma MarkPlaced(hash: (nat, Element) -> nat, s: seq<Slot>, i: nat)
    requires Placed(hash, s) && i < |s|
    ensures Placed(hash, s[i := s[i].(dead := true)])
  {
    var t := s[i := s[i].(dead := true)];
    assert forall j :: 0 <= j < |s| ==> t[j].elem == s[j].elem;
  }

  lemma NextKeeps(hash: (nat, Element) -> nat, size: nat, epochSize: nat, depth: nat, a: State, op: Op)
    requires size > 0 && |a.slots| > 0 && Good(hash, size, epochSize, a)
    ensures Good(hash, size, epochSize, Next(hash, epochSize, depth, a, op))
  {
    hide Good, Next;
    match op
    case Insert(e) => InsertKeepsGood(hash, size, epochSize, depth, a, e);
    case Lookup(e, erase) => LookupKeepsGood(hash, size, epochSize, depth, a, e, erase);
  }

  lemma {:induction false} InitialAlive(n: nat, r: bool)
    ensures Alive(seq(n, _ => Slot(DEFAULT, true, false)), r) == multiset{}
  {
    if n > 0 {
      InitialAlive(n - 1, r);
      assert seq(n, _ => Slot(DEFAULT, true, false))[..n - 1] == seq(n - 1, _ => Slot(DEFAULT, true, false));
    }
  }

  /** Any calls, in order, on a fresh cache. */
  function Run(hash: (nat, Element) -> nat, size: nat, epochSize: nat, depth: nat, ops: seq<Op>): (b: State)
    requires size > 0
    ensures |b.slots| == size
  {
    if ops == [] then Initial(size, epochSize)
    else Next(hash, epochSize, depth, Run(hash, size, epochSize, depth, ops[..|ops| - 1]), ops[|ops| - 1])
  }

  lemma {:induction false} RunKeeps(hash: (nat, Element) -> nat, size: nat, epochSize: nat, depth: nat, ops: seq<Op>)
    requires size > 0 && epochSize >= 1
    ensures Good(hash, size, epochSize, Run(hash, size, epochSize, depth, ops))
  {
    if ops == [] {
      InitialAlive(size, true);
      InitialAlive(size, false);
    } else {
      hide Good, Next;
      var before := ops[..|ops| - 1];
      RunKeeps(hash, size, epochSize, depth, before);
      NextKeeps(hash, size, epochSize, depth, Run(hash, size, epochSize, depth, before), ops[|ops| - 1]);
    }
  }

  /** Main theorem: after any calls the load is bounded, elements are in place, and lookup is membership. */
  lemma RunIsGood(hash: (nat, Element) -> nat, size: nat, epochSize: nat, depth: nat, ops: seq<Op>)
    requires size > 0 && epochSize >= 1
    ensures var s := Run(hash, size, epochSize, depth, ops).slots;
            && |s| == size && Placed(hash, s)
            && |Alive(s, true)| <= Bound(epochSize)
            && |Alive(s, true)| + |Alive(s, false)| <= 2 * Bound(epochSize)
            && forall e :: e != DEFAULT ==> (Contains(hash, s, e) <==> Holds(s, e))
  {
    hide Run, Contains, Holds, Alive, Placed;
    RunKeeps(hash, size, epochSize, depth, ops);
    var s := Run(hash, size, epochSize, depth, ops).slots;
    forall e | e != DEFAULT ensures Contains(hash, s, e) <==> Holds(s, e) {
      ContainsIsMembership(hash, s, e);
    }
  }
}
