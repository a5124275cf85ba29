/** The block tree with its skip pointers, and the active chain over it. */
module Chain {
  import opened Arith

  // ---------------------------------------------------------------- skip heights

  function BitAnd(x: nat, y: nat): nat {
    if x == 0 || y == 0 then 0 else (if x % 2 == 1 && y % 2 == 1 then 1 else 0) + 2 * BitAnd(x / 2, y / 2)
  }

  lemma {:induction false} BitAndAtMost(x: nat, y: nat)
    ensures BitAnd(x, y) <= y
  {
    if x != 0 && y != 0 { BitAndAtMost(x / 2, y / 2); }
  }

  /** Turns the lowest set bit off. */
  function InvertLowestOne(n: nat): nat { if n == 0 then 0 else BitAnd(n, n - 1) }

  function SkipHeight(height: nat): nat {
    if height < 2 then 0
    else if height % 2 == 1 then InvertLowestOne(InvertLowestOne(height - 1)) + 1
    else InvertLowestOne(height)
  }

  /** A skip pointer goes strictly down. */
  lemma SkipsDown(height: nat)
    requires height >= 1
    ensures SkipHeight(height) < height
  {
    hide BitAnd;
    if height >= 2 {
      BitAndAtMost(height, height - 1);
      BitAndAtMost(height - 1, height - 2);
      var n := InvertLowestOne(height - 1);
      if n > 0 { BitAndAtMost(n, n - 1); }
    }
  }

  lemma {:induction false} BitAndSame(x: nat)
    ensures BitAnd(x, x) == x
  {
    if x > 0 { BitAndSame(x / 2); }
  }

  /** `InvertLowestOne` takes away the lowest bit that is set, 2^k. */
  lemma {:induction false} LowestBit(n: nat) returns (k: nat)
    requires n > 0
    ensures n % Pow2(k + 1) == Pow2(k) && n >= Pow2(k) && InvertLowestOne(n) == n - Pow2(k)
  {
    if n % 2 == 1 {
      k := 0;
      BitAndSame(n / 2);
      assert Pow2(1) == 2 && (n - 1) / 2 == n / 2;
    } else {
      var j := LowestBit(n / 2);
      k := j + 1;
      assert (n - 1) / 2 == n / 2 - 1;
      DoubledRemainder(n / 2, Pow2(j + 1), Pow2(j));
    }
  }

  lemma DoubledRemainder(h: nat, m: nat, r: nat)
    requires m > r && h % m == r
    ensures 2 * h % (2 * m) == 2 * r
  {
    assert h == h / m * m + r;
    assert 2 * h == h / m * (2 * m) + 2 * r;
    DivModUnique(2 * h, 2 * m, h / m, 2 * r);
  }

  // ---------------------------------------------------------------- the block tree

  /** A block of the tree; its skip pointer is set when it is appended. */
  class BlockIndex {
    const height: nat
    const pprev: BlockIndex?
    const pskip: BlockIndex?

    constructor Genesis()
      ensures height == 0 && InTree(this)
    {
      height, pprev, pskip := 0, null, null;
    }

    /** Appends to `prev` and builds the skip pointer. */
    constructor Append(prev: BlockIndex)
      requires InTree(prev)
      ensures pprev == prev && height == prev.height + 1 && InTree(this)
      ensures pskip == Ancestor(prev, SkipHeight(height))
    {
      SkipsDown(prev.height + 1);
      height, pprev := prev.height + 1, prev;
      var skip := prev.GetAncestor(SkipHeight(prev.height + 1));
      pskip := skip;
      new;
      assert Ancestor(this, SkipHeight(height)) == Ancestor(prev, SkipHeight(height));
    }

    /** The ancestor at a height, by skip pointers where they help. */
    method GetAncestor(target: int) returns (r: BlockIndex?)
      requires InTree(this)
      ensures r == if 0 <= target <= height then Ancestor(this, target) else null
    {
      if target > height || target < 0 { return null; }
      var walk: BlockIndex := this;
      var heightWalk := height;
      while heightWalk > target
        invariant InTree(walk) && heightWalk == walk.height >= target
        invariant Ancestor(walk, target) == Ancestor(this, target)
        decreases heightWalk
      {
        var skip, skipPrev := SkipHeight(heightWalk), SkipHeight(heightWalk - 1);
        SkipsDown(heightWalk);
        if walk.pskip != null && (skip == target || (skip > target && !(skipPrev < skip - 2 && skipPrev >= target))) {
          AncestorTwice(walk, skip, target);
          AncestorInTree(walk, skip);
          walk := walk.pskip;
          heightWalk := skip;
        } else {
          walk := walk.pprev;
          heightWalk := heightWalk - 1;
        }
      }
      return walk;
    }
  }

  /** Following `pprev` down to height `h`. */
  ghost function Ancestor(b: BlockIndex, h: nat): BlockIndex
    decreases b.height
  {
    if b.height <= h || b.pprev == null || b.pprev.height >= b.height then b else Ancestor(b.pprev, h)
  }

  /** Heights count the steps to a genesis block, and skip pointers that are set were built. */
  ghost predicate InTree(b: BlockIndex)
    decreases b.height
  {
    if b.height == 0 then b.pprev == null && b.pskip == null
    else
      && b.pprev != null && b.pprev.height == b.height - 1 && InTree(b.pprev)
      && (b.pskip != null ==> b.pskip == Ancestor(b, SkipHeight(b.height)))
  }

  lemma {:induction false} AncestorInTree(b: BlockIndex, h: nat)
    requires InTree(b) && h <= b.height
    ensures InTree(Ancestor(b, h)) && Ancestor(b, h).height == h
    decreases b.height
  {
    if h < b.height { AncestorInTree(b.pprev, h); }
  }

  lemma {:induction false} AncestorTwice(b: BlockIndex, h: nat, g: nat)
    requires InTree(b) && g <= h <= b.height
    ensures Ancestor(Ancestor(b, h), g) == Ancestor(b, g)
    decreases b.height
  {
    if h < b.height { AncestorTwice(b.pprev, h, g); }
  }

  // ---------------------------------------------------------------- the active chain

  /** The blocks from genesis to the last one. */
  ghost predicate IsPath(chain: seq<BlockIndex?>) {
    chain != [] ==>
      var tip := chain[|chain| - 1];
      && tip != null && InTree(tip) && tip.height == |chain| - 1
      && forall h :: 0 <= h < |chain| ==> chain[h] == Ancestor(tip, h)
  }

  /** Every block of a path has its ancestors in the path. */
  lemma PathBelow(chain: seq<BlockIndex?>, h: nat, g: nat)
    requires IsPath(chain) && g <= h < |chain|
    ensures chain[h] != null && InTree(chain[h]) && chain[h].height == h && chain[g] == Ancestor(chain[h], g)
  {
    var tip := chain[|chain| - 1];
    AncestorInTree(tip, h);
    AncestorTwice(tip, h, g);
  }

  class ActiveChain {
    var chain: seq<BlockIndex?>

    constructor ()
      ensures chain == [] && IsPath(chain)
    {
      chain := [];
    }

    function At(h: int): BlockIndex?
      reads this
    {
      if 0 <= h < |chain| then chain[h] else null
    }

    predicate Contains(b: BlockIndex)
      reads this
    {
      At(b.height) == b
    }

    /** The chain becomes the path to `tip`; the walk down stops where the old chain already agrees. */
    method SetTip(tip: BlockIndex?)
      requires IsPath(chain) && (tip != null ==> InTree(tip))
      modifies this
      ensures IsPath(chain)
      ensures if tip == null then chain == [] else chain != [] && chain[|chain| - 1] == tip
    {
      if tip == null {
        chain := [];
        return;
      }
      ghost var before := chain;
      if |chain| >= tip.height + 1 {
        chain := chain[..tip.height + 1];
      } else {
        chain := chain + seq(tip.height + 1 - |chain|, _ => null);
      }
      var walk: BlockIndex? := tip;
      ghost var left := tip.height + 1;
      while walk != null && chain[walk.height] != walk
        invariant |chain| == tip.height + 1 && left <= |chain|
        invariant if walk == null then left == 0 else left == walk.height + 1 && InTree(walk) && walk == Ancestor(tip, walk.height)
        invariant forall h :: left <= h < |chain| ==> chain[h] == Ancestor(tip, h)
        invariant forall h :: 0 <= h < left && h < |before| ==> chain[h] == before[h]
        invariant forall h :: 0 <= h < left && h >= |before| ==> chain[h] == null
        decreases left
      {
        chain := chain[walk.height := walk];
        left := walk.height;
        AncestorStep(tip, walk);
        walk := walk.pprev;
      }
      if walk != null {
        forall h | 0 <= h < left ensures chain[h] == Ancestor(tip, h) {
          PathBelow(before, walk.height, h);
          AncestorTwice(tip, walk.height, h);
        }
      }
      assert forall h :: 0 <= h < |chain| ==> chain[h] == Ancestor(tip, h);
    }

    /** The highest block that `b` and the chain share; null when they share none. */
    method FindFork(b: BlockIndex?) returns (r: BlockIndex?)
      requires IsPath(chain) && (b != null ==> InTree(b))
      ensures b == null ==> r == null
      ensures b != null && r != null ==> r.height <= b.height && r == Ancestor(b, r.height) && Contains(r)
      ensures b != null ==>
                forall h :: 0 <= h <= b.height && (r == null || h > r.height) ==> !Contains(Ancestor(b, h))
    {
      if b == null { return null; }
      r := b;
      if b.height > |chain| - 1 {
        r := b.GetAncestor(|chain| - 1);
      }
      if chain != [] { AncestorInTree(b, if b.height > |chain| - 1 then |chain| - 1 else b.height); }
      forall h | |chain| <= h <= b.height ensures !Contains(Ancestor(b, h)) { AncestorInTree(b, h); }
      while r != null && !Contains(r)
        invariant r != null ==> InTree(r) && r.height <= b.height && r == Ancestor(b, r.height)
        invariant forall h :: 0 <= h <= b.height && (r == null || h > r.height) ==> !Contains(Ancestor(b, h))
        decreases if r == null then 0 else r.height + 1
      {
        AncestorStep(b, r);
        r := r.pprev;
      }
    }

    /** Blocks going back from `b` (or the tip) in steps that double after the first eleven, ending at genesis. */
    method GetLocator(b: BlockIndex?) returns (have: seq<BlockIndex>)
      requires IsPath(chain) && (b != null ==> InTree(b))
      ensures b == null && chain == [] ==> have == []
      ensures b != null || chain != [] ==> IsLocator(if b != null then b else chain[|chain| - 1], have)
    {
      hide Back, StepAfter, Ancestor, InTree, IsPath, Partial;
      var step := 1;
      have := [];
      var start := if b != null then b else At(|chain| - 1);
      if chain != [] { PathBelow(chain, |chain| - 1, 0); }
      if start == null { return; }
      var walk: BlockIndex := start;
      AncestorOfSelf(start);
      NoBlocks(start);
      while true
        invariant InTree(start) && InTree(walk) && walk == Ancestor(start, walk.height)
        invariant walk.height == Max0(start.height - Back(|have|)) && step == StepAfter(|have|)
        invariant Partial(start, have) && forall i :: 0 <= i < |have| ==> have[i].height > 0
        invariant if have == [] then walk == start else have[0] == start
        decreases walk.height
      {
        PartialNext(start, have, walk);
        have := have + [walk];
        if walk.height == 0 { break; }
        var h := if walk.height - step > 0 then walk.height - step else 0;
        AncestorTwice(start, walk.height, h);
        AncestorInTree(walk, h);
        StepsNext(|have| - 1);
        walk := StepBack(walk, h);
        if |have| > 10 { step := step * 2; }
      }
    }

    /** The ancestor at height `h`: by the chain where the block is in it, else by skip pointers. */
    method StepBack(b: BlockIndex, h: nat) returns (r: BlockIndex)
      requires IsPath(chain) && InTree(b) && h <= b.height
      ensures r == Ancestor(b, h)
    {
      if Contains(b) {
        PathBelow(chain, b.height, h);
        r := chain[h];
      } else {
        r := b.GetAncestor(h);
      }
    }
  }

  // ---------------------------------------------------------------- locators

  function Max0(n: int): nat { if n > 0 then n else 0 }

  /** The step taken after the block at index `i`. */
  function StepAfter(i: nat): nat { if i <= 10 then 1 else Pow2(i - 10) }

  /** How far below the start the block at index `i` is. */
  function Back(i: nat): nat { if i == 0 then 0 else Back(i - 1) + StepAfter(i - 1) }

  ghost predicate Partial(start: BlockIndex, have: seq<BlockIndex>) {
    forall i :: 0 <= i < |have| ==> Stop(start, have[i], i)
  }

  /** `b` is where a locator from `start` stands at index `i`. */
  ghost predicate Stop(start: BlockIndex, b: BlockIndex, i: nat) {
    b == Ancestor(start, b.height) && b.height == Max0(start.height - Back(i))
  }

  ghost predicate IsLocator(start: BlockIndex, have: seq<BlockIndex>) {
    && Partial(start, have)
    && have != [] && have[0] == start && have[|have| - 1].height == 0
    && (forall i :: 0 <= i < |have| - 1 ==> have[i].height > 0)
  }

  lemma NoBlocks(start: BlockIndex)
    ensures Partial(start, []) && Back(0) == 0 && StepAfter(0) == 1
  {}

  lemma PartialNext(start: BlockIndex, have: seq<BlockIndex>, b: BlockIndex)
    requires Partial(start, have) && b == Ancestor(start, b.height) && b.height == Max0(start.height - Back(|have|))
    ensures Partial(start, have + [b])
  {
    hide Back, Ancestor;
    assert Stop(start, b, |have|);
  }

  lemma StepsNext(n: nat)
    ensures StepAfter(n) >= 1 && Back(n + 1) == Back(n) + StepAfter(n)
    ensures StepAfter(n + 1) == if n + 1 > 10 then 2 * StepAfter(n) else StepAfter(n)
  {
    Pow2Step(0);
  }

  lemma AncestorOfSelf(b: BlockIndex)
    ensures Ancestor(b, b.height) == b
  {}

  lemma {:induction false} BackIs(i: nat)
    requires i >= 11
    ensures Back(i) == Pow2(i - 10) + 9
  {
    if i == 11 {
      FirstSteps(11);
    } else {
      BackIs(i - 1);
    }
  }

  lemma {:induction false} FirstSteps(i: nat)
    requires i <= 11
    ensures Back(i) == i
  {
    if i > 0 { FirstSteps(i - 1); }
  }

  /** A locator's heights fall strictly, and beyond twelve blocks their number is logarithmic in the height. */
  lemma LocatorIsShort(start: BlockIndex, have: seq<BlockIndex>)
    requires IsLocator(start, have)
    ensures forall i :: 0 <= i < |have| - 1 ==> have[i + 1].height < have[i].height
    ensures |have| > 12 ==> Pow2(|have| - 12) + 9 < start.height
  {
    forall i | 0 <= i < |have| - 1 ensures have[i + 1].height < have[i].height {
      assert have[i].height > 0 && Stop(start, have[i], i) && Stop(start, have[i + 1], i + 1);
      StepsNext(i);
    }
    if |have| > 12 {
      BackIs(|have| - 2);
      assert have[|have| - 2].height > 0 && Stop(start, have[|have| - 2], |have| - 2);
    }
  }

  lemma AncestorStep(tip: BlockIndex, b: BlockIndex)
    requires InTree(tip) && InTree(b) && b.height <= tip.height && b == Ancestor(tip, b.height)
    ensures b.height > 0 ==> b.pprev != null && InTree(b.pprev) && b.pprev == Ancestor(tip, b.height - 1)
  {
    if b.height > 0 { AncestorTwice(tip, b.height, b.height - 1); }
  }
}
