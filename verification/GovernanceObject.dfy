/** The vote file and the governance object, updated in place as votes arrive and masternodes leave. */
module GovernanceObject {
  import opened Governance
  import opened GovernanceRun

  // ---------------------------------------------------------------- erasing while walking

  lemma {:induction false} WithoutSame(list: seq<Vote>, p: Vote -> bool, q: Vote -> bool)
    requires forall v :: v in list ==> p(v) == q(v)
    ensures Without(list, p) == Without(list, q)
  {
    if list != [] {
      assert list[0] in list;
      WithoutSame(list[1..], p, q);
    }
  }

  lemma {:induction false} WithoutTwice(list: seq<Vote>, p: Vote -> bool, q: Vote -> bool, both: Vote -> bool)
    requires forall v :: both(v) == (p(v) || q(v))
    ensures Without(Without(list, p), q) == Without(list, both)
  {
    if list != [] {
      WithoutTwice(list[1..], p, q, both);
      if !p(list[0]) {
        var rest := Without(list[1..], p);
        assert ([list[0]] + rest)[1..] == rest;
      }
    }
  }

  lemma RemoveTwice(f: File, p: Vote -> bool, q: Vote -> bool, both: Vote -> bool)
    requires forall v :: both(v) == (p(v) || q(v))
    ensures Remove(Remove(f, p), q) == Remove(f, both)
  {
    WithoutTwice(f.list, p, q, both);
    WithoutMember(f.list, p);
    var g := Remove(f, p);
    assert g.index - (set v | v in g.list && q(v)) == f.index - (set v | v in f.list && both(v));
  }

  lemma RemoveSame(f: File, p: Vote -> bool, q: Vote -> bool)
    requires forall v :: v in f.list ==> p(v) == q(v)
    ensures Remove(f, p) == Remove(f, q)
  {
    WithoutSame(f.list, p, q);
    assert (set v | v in f.list && p(v)) == (set v | v in f.list && q(v));
  }

  /** A walk over the list that has reached position `i`, erasing the votes that satisfy `drop`. */
  ghost predicate Walked(start: File, now: File, i: nat, drop: Vote -> bool) {
    && i <= |now.list| && FileInv(now)
    && now.list[..i] + Without(now.list[i..], drop) == Without(start.list, drop)
  }

  function EraseAt(f: File, i: nat): File
    requires i < |f.list|
  {
    File(f.list[..i] + f.list[i + 1..], f.index - {f.list[i]}, f.count - 1)
  }

  lemma WalkStart(start: File, drop: Vote -> bool)
    requires FileInv(start)
    ensures Walked(start, start, 0, drop)
  {
    assert start.list[..0] == [] && start.list[0..] == start.list;
  }

  lemma ErasedOne(f: File, i: nat)
    requires FileInv(f) && i < |f.list|
    ensures forall v :: v in EraseAt(f, i).list <==> v in f.list && v != f.list[i]
  {
    assert f.list == f.list[..i] + [f.list[i]] + f.list[i + 1..];
    assert f.list[i] !in f.list[..i] && f.list[i] !in f.list[i + 1..];
  }

  lemma WalkErase(start: File, now: File, i: nat, drop: Vote -> bool)
    requires Walked(start, now, i, drop) && i < |now.list| && drop(now.list[i])
    ensures Walked(start, EraseAt(now, i), i, drop)
    ensures forall v :: v in EraseAt(now, i).list <==> v in now.list && v != now.list[i]
  {
    var next := EraseAt(now, i);
    assert now.list[i..][0] == now.list[i] && now.list[i..][1..] == now.list[i + 1..];
    assert next.list[..i] == now.list[..i] && next.list[i..] == now.list[i + 1..];
    assert now.list == now.list[..i] + [now.list[i]] + now.list[i + 1..];
    ErasedOne(now, i);
  }

  lemma WalkKeep(start: File, now: File, i: nat, drop: Vote -> bool)
    requires Walked(start, now, i, drop) && i < |now.list| && !drop(now.list[i])
    ensures Walked(start, now, i + 1, drop)
  {
    assert now.list[i..][0] == now.list[i] && now.list[i..][1..] == now.list[i + 1..];
    assert now.list[..i + 1] == now.list[..i] + [now.list[i]];
  }

  lemma WalkDone(start: File, now: File, drop: Vote -> bool)
    requires FileInv(start) && Walked(start, now, |now.list|, drop)
    ensures now == Remove(start, drop) && FileInv(now)
  {
    RemoveKeeps(start, drop);
    assert now.list[..|now.list|] == now.list && now.list[|now.list|..] == [];
  }

  lemma FirstsAt(list: seq<Vote>, i: nat, seen: set<Vote>)
    requires i < |list|
    ensures Firsts(list[i..], seen)
            == if list[i] in seen then Firsts(list[i + 1..], seen) else [list[i]] + Firsts(list[i + 1..], seen + {list[i]})
  {
    assert list[i..][0] == list[i] && list[i..][1..] == list[i + 1..];
  }

  lemma NoFirsts(seen: set<Vote>)
    ensures Firsts([], seen) == []
  {}

  class VoteFile {
    var list: seq<Vote>
    var index: set<Vote>
    var count: int

    function Value(): File
      reads this
    {
      File(list, index, count)
    }

    constructor ()
      ensures Value() == EMPTY_FILE
    {
      list, index, count := [], {}, 0;
    }

    /** The copy made from another file's list. */
    constructor Copy(other: seq<Vote>)
      ensures Value() == Rebuild(other)
    {
      list := other;
      new;
      RebuildIndex();
    }

    predicate HasVote(v: Vote)
      reads this
    {
      v in index
    }

    method Erase(i: nat)
      requires i < |list|
      modifies this
      ensures Value() == EraseAt(old(Value()), i)
    {
      count := count - 1;
      index := index - {list[i]};
      list := list[..i] + list[i + 1..];
    }

    method RemoveOldVotes(v: Vote)
      requires FileInv(Value())
      modifies this
      ensures Value() == Remove(old(Value()), w => Replaces(v, w))
    {
      hide Walked, FileInv, Without;
      ghost var start, drop := Value(), (w: Vote) => Replaces(v, w);
      var i := 0;
      WalkStart(start, drop);
      while i < |list|
        invariant i <= |list| && Walked(start, Value(), i, drop)
        decreases |list| - i
      {
        if list[i].mn == v.mn && list[i].parent == v.parent && list[i].signal == v.signal && list[i].time < v.time {
          WalkErase(start, Value(), i, drop);
          Erase(i);
        } else {
          WalkKeep(start, Value(), i, drop);
          i := i + 1;
        }
      }
      WalkDone(start, Value(), drop);
    }

    method AddVote(v: Vote)
      requires FileInv(Value())
      modifies this
      ensures Value() == Governance.AddVote(old(Value()), v) && FileInv(Value())
    {
      AddVoteKeeps(Value(), v);
      if HasVote(v) { return; }
      list := [v] + list;
      index := index + {v};
      count := count + 1;
      RemoveOldVotes(v);
    }

    method RemoveVotesFrom(mn: OutPoint)
      requires FileInv(Value())
      modifies this
      ensures Value() == Remove(old(Value()), (v: Vote) => v.mn == mn) && FileInv(Value())
    {
      hide Walked, FileInv, Without;
      ghost var start, drop := Value(), (v: Vote) => v.mn == mn;
      var i := 0;
      WalkStart(start, drop);
      while i < |list|
        invariant i <= |list| && Walked(start, Value(), i, drop)
        decreases |list| - i
      {
        if list[i].mn == mn {
          WalkErase(start, Value(), i, drop);
          Erase(i);
        } else {
          WalkKeep(start, Value(), i, drop);
          i := i + 1;
        }
      }
      WalkDone(start, Value(), drop);
    }

    method RemoveInvalidVotes(mn: OutPoint, valid: Vote -> bool) returns (removed: set<Vote>)
      requires FileInv(Value())
      modifies this
      ensures removed == set v | v in old(list) && v.mn == mn && !valid(v)
      ensures Value() == Remove(old(Value()), (v: Vote) => v.mn == mn && !valid(v)) && FileInv(Value())
    {
      hide Walked, FileInv, Without;
      ghost var start, drop := Value(), (v: Vote) => v.mn == mn && !valid(v);
      removed := {};
      var i := 0;
      WalkStart(start, drop);
      while i < |list|
        invariant i <= |list| && Walked(start, Value(), i, drop)
        invariant forall v :: v in list ==> v in start.list
        invariant forall v :: v in removed <==> v in start.list && v !in list
        invariant forall v :: v in removed ==> drop(v)
        decreases |list| - i
      {
        if list[i].mn == mn && !valid(list[i]) {
          WalkErase(start, Value(), i, drop);
          removed := removed + {list[i]};
          Erase(i);
        } else {
          WalkKeep(start, Value(), i, drop);
          i := i + 1;
        }
      }
      WalkDone(start, Value(), drop);
      WithoutMember(start.list, drop);
    }

    method RebuildIndex()
      modifies this
      ensures Value() == Rebuild(old(list))
    {
      hide Firsts;
      index, count := {}, 0;
      var i := 0;
      assert list[..0] == [] && list[0..] == list;
      while i < |list|
        invariant 0 <= i <= |list| && count == i && index == set v | v in list[..i]
        invariant list[..i] + Firsts(list[i..], index) == Firsts(old(list), {})
        decreases |list| - i
      {
        FirstsAt(list, i, index);
        if list[i] !in index {
          assert list[..i + 1] == list[..i] + [list[i]];
          index := index + {list[i]};
          count := count + 1;
          i := i + 1;
        } else {
          ghost var was := list;
          list := list[..i] + list[i + 1..];
          assert list[..i] == was[..i] && list[i..] == was[i + 1..];
        }
      }
      assert list[..i] == list && list[i..] == [];
      NoFirsts(index);
    }
  }

  // ---------------------------------------------------------------- the object

  class GovObject {
    const hash: int
    var current: map<OutPoint, Record>
    const file: VoteFile

    function Value(): Object
      reads this, file
    {
      Object(hash, current, file.Value())
    }

    constructor (hash: int)
      ensures Value() == Fresh(hash) && Inv(Value()) && fresh(file)
    {
      this.hash := hash;
      current := map[];
      file := new VoteFile();
    }

    /** `emplace`: an entry comes into being unless it is there. */
    method EmplaceRecord(mn: OutPoint)
      modifies this
      ensures current == old(current)[mn := RecordOf(old(Value()), mn)]
    {
      if mn !in current { current := current[mn := map[]]; }
    }

    method EmplaceInstance(mn: OutPoint, signal: int) returns (i: Instance)
      requires mn in current
      modifies this
      ensures i == InstanceOf(old(Value()), mn, signal)
      ensures current == old(current)[mn := old(current)[mn][signal := i]]
    {
      if signal !in current[mn] { current := current[mn := current[mn][signal := DEFAULT_INSTANCE]]; }
      i := current[mn][signal];
      assert current[mn] == old(current)[mn][signal := i];
    }

    method ProcessVote(m: Message) returns (verdict: Verdict)
      requires Inv(Value()) && m.vote.parent == hash
      modifies this, file
      ensures (Value(), verdict) == Governance.ProcessVote(old(Value()), m)
      ensures Inv(Value())
    {
      hide FileInv, StoredOk, CurrentOk, Governance.AddVote;
      ghost var o := Value();
      ProcessVoteKeeps(o, m);
      var v := m.vote;
      if file.HasVote(v) { return AlreadyKnown; }
      if !m.known { return NoMasternode; }
      EmplaceRecord(v.mn);
      if v.signal == SIGNAL_NONE { return NoSignal; }
      if v.signal < 0 || v.signal > MAX_SIGNAL { return UnsupportedSignal; }
      var i := EmplaceInstance(v.mn, v.signal);
      assert current == o.current[v.mn := RecordOf(o, v.mn)[v.signal := i]];
      if v.time < i.created {
        return Obsolete;
      } else if v.time == i.created {
        if v.outcome < i.outcome { return SameTimestamp; }
      }
      var update := i.time;
      if m.rateChecks {
        if m.now - i.time < UPDATE_MIN { return TooOften; }
        update := m.now;
      }
      if !m.valid { return Invalid; }
      if !m.recorded { return NotRecorded; }
      assert current[v.mn][v.signal := Instance(v.outcome, update, v.time)]
          == RecordOf(o, v.mn)[v.signal := Instance(v.outcome, update, v.time)];
      current := current[v.mn := current[v.mn][v.signal := Instance(v.outcome, update, v.time)]];
      assert current == o.current[v.mn := RecordOf(o, v.mn)[v.signal := Instance(v.outcome, update, v.time)]];
      file.AddVote(v);
      verdict := Accepted;
    }

    method ClearMasternodeVotes(listed: set<OutPoint>)
      requires Inv(Value())
      modifies this, file
      ensures Value() == ClearVotes(old(Value()), listed) && Inv(Value())
    {
      ghost var o := Value();
      ghost var gone: set<OutPoint> := {};
      ClearVotesKeeps(o, listed);
      RemoveNone(o.file, (v: Vote) => v.mn in gone);
      var todo := current.Keys;
      while todo != {}
        invariant todo <= o.current.Keys && gone == (set mn | mn in o.current && mn !in todo && mn !in listed)
        invariant current == o.current - gone
        invariant FileInv(file.Value()) && file.Value() == Remove(o.file, (v: Vote) => v.mn in gone)
        decreases todo
      {
        var mn :| mn in todo;
        todo := todo - {mn};
        if mn !in listed {
          file.RemoveVotesFrom(mn);
          current := current - {mn};
          ghost var was := gone;
          gone := gone + {mn};
          RemoveTwice(o.file, (v: Vote) => v.mn in was, (v: Vote) => v.mn == mn, (v: Vote) => v.mn in gone);
        }
      }
      RemoveSame(o.file, (v: Vote) => v.mn in gone, (v: Vote) => v.mn in o.current && v.mn !in listed);
      assert current == map mn | mn in o.current && mn in listed :: o.current[mn];
    }

    /** The walk over one masternode's instances that follows the removal of its invalid votes. */
    method Prune(mn: OutPoint, bad: set<Vote>)
      requires mn in current
      modifies this
      ensures var o, rec := old(Value()), Pruned(old(Value()), mn, bad);
              current == if rec == map[] then o.current - {mn} else o.current[mn := rec]
    {
      ghost var o := Value();
      var rec := current[mn];
      var todo := rec.Keys;
      while todo != {}
        invariant todo <= rec.Keys && rec == o.current[mn] && mn in current
        invariant current == o.current[mn := current[mn]]
        invariant current[mn] == map s | s in o.current[mn] && (s in todo || CurrentVote(o, mn, s) !in bad) :: o.current[mn][s]
        decreases todo
      {
        SomeMember(todo);
        var s :| s in todo;
        todo := todo - {s};
        var i := current[mn][s];
        if Vote(mn, hash, s, i.outcome, i.created) in bad {
          current := current[mn := current[mn] - {s}];
        }
      }
      assert current[mn] == Pruned(o, mn, bad);
      if current[mn] == map[] { current := current - {mn}; }
    }

    method RemoveInvalidVotes(mn: OutPoint, valid: Vote -> bool) returns (removed: set<Vote>)
      requires Inv(Value())
      modifies this, file
      ensures Value() == RemoveInvalid(old(Value()), mn, valid)
    {
      ghost var o := Value();
      removed := {};
      if mn !in current { return; }
      removed := file.RemoveInvalidVotes(mn, valid);
      if removed == {} {
        NothingInvalid(o.file, mn, valid);
        return;
      }
      ghost var mid := Value();
      assert forall s :: CurrentVote(mid, mn, s) == CurrentVote(o, mn, s);
      assert Pruned(mid, mn, removed) == Pruned(o, mn, removed);
      Prune(mn, removed);
    }

    method CountMatchingVotes(signal: int, outcome: nat) returns (n: nat)
      ensures n == Tally(Value(), signal, outcome)
    {
      n := 0;
      var todo := current.Keys;
      ghost var counted: set<OutPoint> := {};
      while todo != {}
        invariant todo <= current.Keys && n == |counted|
        invariant counted == set mn | mn in current && mn !in todo && mn in Voters(Value(), signal, outcome)
        decreases todo
      {
        var mn :| mn in todo;
        todo := todo - {mn};
        if signal in current[mn] && current[mn][signal].outcome == outcome {
          n := n + 1;
          counted := counted + {mn};
        }
      }
      assert counted == Voters(Value(), signal, outcome);
    }
  }

  lemma SomeMember(s: set<int>)
    requires s != {}
    ensures exists x :: x in s
  {
    assert (forall x :: x !in s) ==> s == {};
  }

  lemma RemoveNone(f: File, drop: Vote -> bool)
    requires FileInv(f) && forall v :: v in f.list ==> !drop(v)
    ensures Remove(f, drop) == f
  {
    RemoveKeeps(f, drop);
    WithoutNone(f.list, drop);
  }

  lemma NothingInvalid(f: File, mn: OutPoint, valid: Vote -> bool)
    requires FileInv(f) && (set v | v in f.list && v.mn == mn && !valid(v)) == {}
    ensures Remove(f, (v: Vote) => v.mn == mn && !valid(v)) == f
  {
    var bad := set v | v in f.list && v.mn == mn && !valid(v);
    forall v | v in f.list ensures !(v.mn == mn && !valid(v)) {
      assert v.mn == mn && !valid(v) ==> v in bad;
    }
    RemoveNone(f, (v: Vote) => v.mn == mn && !valid(v));
  }
}
