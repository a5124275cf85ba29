/** Which elements the signature cache finds after an insert, which one it drops, and when. */
module CuckooFound {
  import opened Prelude
  import opened Cuckoo

  // ---------------------------------------------------------------- room for the element

  /** Some slot of the element's own holds it, or may be overwritten. */
  predicate HasRoom(hash: (nat, Element) -> nat, s: seq<Slot>, e: Element)
    requires |s| > 0
  {
    Contains(hash, s, e) || exists k :: 0 <= k < HASHES && s[Locs(hash, |s|, e)[k]].dead
  }

  /** The first of the element's slots that holds it or, if none does, the first that may be overwritten. */
  predicate FirstChoice(hash: (nat, Element) -> nat, s: seq<Slot>, e: Element, k: nat)
    requires |s| > 0 && k < HASHES
  {
    var locs := Locs(hash, |s|, e);
    if Contains(hash, s, e) then s[locs[k]].elem == e && forall j :: 0 <= j < k ==> s[locs[j]].elem != e
    else s[locs[k]].dead && forall j :: 0 <= j < k ==> !s[locs[j]].dead
  }

  /** With room the insert writes one slot, its first choice, and changes nothing else. */
  lemma InsertedDirectly(hash: (nat, Element) -> nat, s: seq<Slot>, e: Element, depth: nat)
    requires |s| > 0 && depth > 0 && HasRoom(hash, s, e)
    ensures exists k :: 0 <= k < HASHES && FirstChoice(hash, s, e, k)
                        && Inserted(hash, s, e, depth) == s[Locs(hash, |s|, e)[k] := Slot(e, false, true)]
  {
    var locs := Locs(hash, |s|, e);
    var f, d := FirstWith(s, locs, e), FirstDead(s, locs);
    if f < HASHES {
      assert Contains(hash, s, e) && FirstChoice(hash, s, e, f);
    } else {
      assert !Contains(hash, s, e) && d < HASHES;
      assert FirstChoice(hash, s, e, d);
    }
  }

  /** The element is held, live and recent. */
  predicate HeldFresh(hash: (nat, Element) -> nat, s: seq<Slot>, e: Element)
    requires |s| > 0
  {
    exists k :: 0 <= k < HASHES && s[Locs(hash, |s|, e)[k]] == Slot(e, false, true)
  }

  lemma HeldIsContained(hash: (nat, Element) -> nat, s: seq<Slot>, e: Element)
    requires |s| > 0 && HeldFresh(hash, s, e)
    ensures Contains(hash, s, e)
  {
    var k :| 0 <= k < HASHES && s[Locs(hash, |s|, e)[k]] == Slot(e, false, true);
    assert s[Locs(hash, |s|, e)[k]].elem == e;
  }

  /** With room the element is held afterwards, live and recent, and no other live element is lost. */
  lemma InsertedIsHeld(hash: (nat, Element) -> nat, s: seq<Slot>, e: Element, depth: nat)
    requires Placed(hash, s) && depth > 0 && HasRoom(hash, s, e)
    ensures var t := Inserted(hash, s, e, depth);
            && HeldFresh(hash, t, e)
            && forall i :: 0 <= i < |s| && !s[i].dead && s[i].elem != e ==> t[i] == s[i]
  {
    InsertedDirectly(hash, s, e, depth);
    var t := Inserted(hash, s, e, depth);
    var k :| 0 <= k < HASHES && FirstChoice(hash, s, e, k) && t == s[Locs(hash, |s|, e)[k] := Slot(e, false, true)];
    assert t[Locs(hash, |t|, e)[k]] == Slot(e, false, true);
  }

  // ---------------------------------------------------------------- the chain of swaps

  /** A table, the element in hand, and where it came from. */
  datatype Hop = Hop(slots: seq<Slot>, hand: Slot, loc: nat)

  predicate Full(hash: (nat, Element) -> nat, h: Hop) {
    |h.slots| > 0 && forall k :: 0 <= k < HASHES ==> !h.slots[Locs(hash, |h.slots|, h.hand.elem)[k]].dead
  }

  /** The hand changes places with the candidate after the one it came from. */
  function Swapped(hash: (nat, Element) -> nat, h: Hop): (g: Hop)
    requires |h.slots| > 0
    ensures |g.slots| == |h.slots|
  {
    var loc := NextLoc(Locs(hash, |h.slots|, h.hand.elem), h.loc);
    Hop(h.slots[loc := h.hand], h.slots[loc], loc)
  }

  /** A trail of swaps, each of them forced: none of the hand's slots may be overwritten. */
  ghost predicate Trail(hash: (nat, Element) -> nat, tr: seq<Hop>) {
    forall i :: 0 <= i < |tr| - 1 ==> Full(hash, tr[i]) && tr[i + 1] == Swapped(hash, tr[i])
  }

  /** The hand may go to the first of its slots that may be overwritten. */
  ghost predicate Settles(hash: (nat, Element) -> nat, h: Hop, t: seq<Slot>) {
    |h.slots| > 0 && var locs := Locs(hash, |h.slots|, h.hand.elem);
    exists d :: 0 <= d < HASHES && h.slots[locs[d]].dead && (forall j :: 0 <= j < d ==> !h.slots[locs[j]].dead)
                && t == h.slots[locs[d] := h.hand]
  }

  /** What a chain of at most `depth` rounds comes to: after some forced swaps the hand finds a slot, or after `depth` of
    * them it is dropped.
    */
  lemma {:induction false} EvictIsTrail(hash: (nat, Element) -> nat, s: seq<Slot>, hand: Slot, lastLoc: nat, depth: nat)
      returns (tr: seq<Hop>)
    requires |s| > 0 && !hand.dead
    ensures tr != [] && tr[0] == Hop(s, hand, lastLoc) && Trail(hash, tr) && |tr| <= depth + 1
    ensures var (t, out) := Evict(hash, s, hand, lastLoc, depth); var last := tr[|tr| - 1];
            if out.dead then |tr| <= depth && Settles(hash, last, t) && out == last.hand.(dead := true)
            else |tr| == depth + 1 && t == last.slots && out == last.hand
    decreases depth
  {
    var h := Hop(s, hand, lastLoc);
    tr := [h];
    if depth > 0 {
      var locs := Locs(hash, |s|, hand.elem);
      var d := FirstDead(s, locs);
      if d < HASHES {
        assert Settles(hash, h, s[locs[d] := hand]);
      } else {
        var g := Swapped(hash, h);
        var rest := EvictIsTrail(hash, g.slots, g.hand, g.loc, depth - 1);
        tr := [h] + rest;
        TrailCons(hash, h, rest);
      }
    }
  }

  lemma TrailCons(hash: (nat, Element) -> nat, h: Hop, rest: seq<Hop>)
    requires Full(hash, h) && rest != [] && rest[0] == Swapped(hash, h) && Trail(hash, rest)
    ensures Trail(hash, [h] + rest)
  {
    var tr := [h] + rest;
    forall i | 0 <= i < |tr| - 1 ensures Full(hash, tr[i]) && tr[i + 1] == Swapped(hash, tr[i]) {
      if i > 0 { assert tr[i] == rest[i - 1] && tr[i + 1] == rest[i]; }
    }
  }

  /** `depth` forced swaps lie ahead of the hand. */
  ghost predicate Stuck(hash: (nat, Element) -> nat, s: seq<Slot>, hand: Slot, lastLoc: nat, depth: nat) {
    exists tr: seq<Hop> :: |tr| == depth + 1 && tr[0] == Hop(s, hand, lastLoc) && Trail(hash, tr)
  }

  /** An element is dropped if and only if `depth` swaps are forced one after another. */
  lemma DroppedIff(hash: (nat, Element) -> nat, s: seq<Slot>, hand: Slot, lastLoc: nat, depth: nat)
    requires |s| > 0 && !hand.dead
    ensures !Evict(hash, s, hand, lastLoc, depth).1.dead <==> Stuck(hash, s, hand, lastLoc, depth)
  {
    var tr := EvictIsTrail(hash, s, hand, lastLoc, depth);
    if Stuck(hash, s, hand, lastLoc, depth) {
      var all: seq<Hop> :| |all| == depth + 1 && all[0] == Hop(s, hand, lastLoc) && Trail(hash, all);
      if |tr| <= depth {
        SameTrail(hash, tr, all, |tr| - 1);
      }
    }
  }

  lemma {:induction false} SameTrail(hash: (nat, Element) -> nat, a: seq<Hop>, b: seq<Hop>, n: nat)
    requires Trail(hash, a) && Trail(hash, b) && n < |a| && n < |b| && a[0] == b[0]
    ensures a[n] == b[n]
  {
    if n > 0 {
      SameTrail(hash, a, b, n - 1);
      assert a[n - 1 + 1] == Swapped(hash, a[n - 1]) && b[n - 1 + 1] == Swapped(hash, b[n - 1]);
    }
  }

  lemma IndexFound(locs: seq<nat>, x: nat)
    requires x in locs
    ensures IndexOf(locs, x) < |locs|
  {
    if locs[0] != x { IndexFound(locs[1..], x); }
  }

  /** The chain does not go straight back: where the eight slots differ, the next one is not the one just left. */
  lemma NeverStraightBack(locs: seq<nat>, lastLoc: nat)
    requires |locs| == HASHES && forall i, j :: 0 <= i < j < HASHES ==> locs[i] != locs[j]
    ensures NextLoc(locs, lastLoc) in locs && NextLoc(locs, lastLoc) != lastLoc
  {
    var k := IndexOf(locs, lastLoc);
    if lastLoc in locs { IndexFound(locs, lastLoc); }
    assert locs[(1 + k) % HASHES] in locs;
  }

  // ---------------------------------------------------------------- who is found

  lemma {:induction false} AliveHas(s: seq<Slot>, i: nat, r: bool)
    requires i < |s| && !s[i].dead && s[i].recent == r
    ensures s[i].elem in Alive(s, r)
  {
    if i < |s| - 1 { AliveHas(s[..|s| - 1], i, r); }
  }

  lemma {:induction false} AliveHeld(s: seq<Slot>, e: Element, r: bool)
    requires e in Alive(s, r)
    ensures Holds(s, e)
  {
    var n := |s| - 1;
    if e in Alive(s[..n], r) {
      AliveHeld(s[..n], e, r);
      var i :| 0 <= i < n && s[..n][i].elem == e;
      assert s[i].elem == e;
    } else {
      assert s[n].elem == e;
    }
  }

  /** A real element is found after its insert unless it was absent and is the one dropped. */
  lemma FoundIff(hash: (nat, Element) -> nat, s: seq<Slot>, e: Element, depth: nat)
    requires Placed(hash, s) && e != DEFAULT
    ensures var t, out := Inserted(hash, s, e, depth), Evict(hash, s, Slot(e, false, true), |s|, depth).1;
            Contains(hash, t, e) <==> Contains(hash, s, e) || out.dead || out.elem != e
  {
    hide Evict, Alive;
    var t, out := Inserted(hash, s, e, depth), Evict(hash, s, Slot(e, false, true), |s|, depth).1;
    var locs := Locs(hash, |s|, e);
    var f := FirstWith(s, locs, e);
    if f < HASHES {
      assert s[locs[f]].elem == e && t[locs[f]].elem == e;
    } else {
      assert !Contains(hash, s, e);
      NotFound(hash, s, e);
      InsertedPlaced(hash, s, e, depth);
      EvictKeeps(hash, s, e, s, Slot(e, false, true), |s|, depth);
      ContainsIsMembership(hash, t, e);
      if out.dead || out.elem != e {
        NotDropped(s, e, t, out);
        AliveHeld(t, e, true);
      }
    }
  }

  lemma NotDropped(s: seq<Slot>, e: Element, t: seq<Slot>, out: Slot)
    requires Conserved(s, e, t, out) && (out.dead || out.elem != e)
    ensures e in Alive(t, true)
  {
    hide Alive;
    assert Alive(t, true) + AliveIn(out, true) == Alive(s, true) + AliveIn(Slot(e, false, true), true);
    assert (Alive(t, true) + AliveIn(out, true))[e] >= 1;
  }

  // ---------------------------------------------------------------- epochs and lookups

  /** The epoch check does nothing until the counter has run out and an epoch is full; then the recent elements become
    * the old ones, and the old ones may be overwritten. No element moves.
    */
  lemma EpochCheckAges(s: seq<Slot>, counter: nat, epochSize: nat)
    ensures var (t, c) := EpochCheck(s, counter, epochSize);
            if counter == 0 && |Alive(s, true)| >= epochSize then
              && c == epochSize && |t| == |s| && (forall i :: 0 <= i < |s| ==> t[i].elem == s[i].elem)
              && Alive(t, true) == multiset{} && Alive(t, false) == Alive(s, true)
            else t == s && (if counter > 0 then c == counter - 1 else c >= 1 && c + |Alive(s, true)| >= epochSize)
  {
    hide Alive;
    CountIsAlive(s);
    AgedAlive(s);
  }

  lemma RoomAfterCheck(hash: (nat, Element) -> nat, s: seq<Slot>, counter: nat, epochSize: nat, e: Element)
    requires |s| > 0 && HasRoom(hash, s, e)
    ensures |EpochCheck(s, counter, epochSize).0| == |s| && HasRoom(hash, EpochCheck(s, counter, epochSize).0, e)
  {
    var t := EpochCheck(s, counter, epochSize).0;
    var locs := Locs(hash, |s|, e);
    if Contains(hash, s, e) {
      var k :| 0 <= k < HASHES && s[locs[k]].elem == e;
      assert t[locs[k]].elem == e;
    } else {
      var k :| 0 <= k < HASHES && s[locs[k]].dead;
      assert t[locs[k]].dead;
    }
  }

  /** Whatever calls came before: an element with room is found right after its insert, live and recent. */
  lemma InsertThenFound(hash: (nat, Element) -> nat, size: nat, epochSize: nat, depth: nat, ops: seq<Op>, e: Element)
    requires size > 0 && epochSize >= 1 && depth > 0 && HasRoom(hash, Run(hash, size, epochSize, depth, ops).slots, e)
    ensures var s := Run(hash, size, epochSize, depth, ops + [Insert(e)]).slots; HeldFresh(hash, s, e) && Contains(hash, s, e)
  {
    hide Inserted, EpochCheck, HasRoom, HeldFresh, Placed;
    var a := Run(hash, size, epochSize, depth, ops);
    var all := ops + [Insert(e)];
    assert all[..|all| - 1] == ops;
    RunKeeps(hash, size, epochSize, depth, ops);
    RoomAfterCheck(hash, a.slots, a.counter, epochSize, e);
    EpochCheckPlaced(hash, a.slots, a.counter, epochSize);
    InsertedIsHeld(hash, EpochCheck(a.slots, a.counter, epochSize).0, e, depth);
    HeldIsContained(hash, Run(hash, size, epochSize, depth, all).slots, e);
  }

  /** In a fresh table there is room for everything. */
  lemma FreshHasRoom(hash: (nat, Element) -> nat, size: nat, epochSize: nat, depth: nat, e: Element)
    requires size > 0
    ensures HasRoom(hash, Run(hash, size, epochSize, depth, []).slots, e)
  {
    var s := Run(hash, size, epochSize, depth, []).slots;
    assert s[Locs(hash, |s|, e)[0]].dead;
  }

  /** A lookup that erases marks the one slot that holds the element; other lookups change nothing. The element can still
    * be found until its slot is overwritten.
    */
  lemma LookupMarks(hash: (nat, Element) -> nat, epochSize: nat, depth: nat, a: State, e: Element, erase: bool)
    requires Placed(hash, a.slots) && e != DEFAULT
    ensures var b := Next(hash, epochSize, depth, a, Lookup(e, erase));
            && b.counter == a.counter && Contains(hash, b.slots, e) == Contains(hash, a.slots, e)
            && forall i :: 0 <= i < |a.slots| ==>
                 b.slots[i] == if erase && a.slots[i].elem == e then a.slots[i].(dead := true) else a.slots[i]
  {
    var s := a.slots;
    var locs := Locs(hash, |s|, e);
    var k := FirstWith(s, locs, e);
    var t := Next(hash, epochSize, depth, a, Lookup(e, erase)).slots;
    if k < HASHES {
      assert s[locs[k]].elem == e && t[locs[k]].elem == e;
      forall i | 0 <= i < |s| ensures s[i].elem == e ==> i == locs[k] {}
    } else {
      NotFound(hash, s, e);
    }
  }
}
