/** Which votes the vote file holds after any messages, and when that does not depend on their order. */
module GovernanceFile {
  import opened Governance
  import opened GovernanceRun

  // ---------------------------------------------------------------- the stored votes

  /** No vote of the set about the same masternode and signal ranks above `v`. */
  predicate Tops(votes: set<Vote>, v: Vote) {
    AtMost(DEFAULT_RANK, RankOf(v)) && forall u :: u in votes && About(u, v.mn, v.signal) ==> AtMost(RankOf(u), RankOf(v))
  }

  /** No vote of the set about the same masternode and signal is later than `v`. */
  predicate Latest(votes: set<Vote>, v: Vote) {
    forall u :: u in votes && About(u, v.mn, v.signal) ==> u.time <= v.time
  }

  /** Message `i` brought `v`, which counted, and nothing before it ranked above. */
  predicate Arrives(ms: seq<Message>, i: nat, v: Vote)
    requires i < |ms|
  {
    ms[i].vote == v && Counts(ms[i]) && Tops(Deciding(ms[..i]), v)
  }

  predicate Kept(ms: seq<Message>, v: Vote) {
    Latest(Deciding(ms), v) && exists i :: 0 <= i < |ms| && Arrives(ms, i, v)
  }

  /** A vote is at the top of those before it exactly when it is not below the current one. */
  lemma TopsIsBest(hash: int, ms: seq<Message>, v: Vote)
    requires ForObject(hash, ms) && NoRateChecks(ms)
    ensures Tops(Deciding(ms), v) <==> AtMost(Best(Process(hash, ms), v.mn, v.signal), RankOf(v))
  {
    hide Process, Deciding;
    CurrentIsWinner(hash, ms, v.mn, v.signal);
  }

  /** What one message does to the file. */
  lemma StoredNext(o: Object, m: Message, v: Vote)
    requires Inv(o) && m.vote.parent == o.hash && !m.rateChecks
    ensures var accepted := Counts(m) && AtMost(Best(o, m.vote.mn, m.vote.signal), RankOf(m.vote));
            v in ProcessVote(o, m).0.file.index
            <==> (accepted && v == m.vote) || (v in o.file.index && !(accepted && Replaces(m.vote, v)))
  {
    hide FileInv, AddVote, CurrentOk;
    AddVoteKeeps(o.file, m.vote);
    if m.vote in o.file.index { assert StoredOk(o, m.vote); }
    if v in o.file.index { assert StoredOk(o, v); }
  }

  lemma KeptNext(ms: seq<Message>, v: Vote)
    requires ms != []
    ensures var n := |ms| - 1; var m := ms[n];
            var accepted := Counts(m) && Tops(Deciding(ms[..n]), m.vote);
            Kept(ms, v) ==> (accepted && v == m.vote) || (Kept(ms[..n], v) && !(Counts(m) && Newer(m.vote, v)))
  {
    hide Tops;
    var n := |ms| - 1;
    DecidingNext(ms);
    if Kept(ms, v) {
      var i :| 0 <= i < |ms| && Arrives(ms, i, v);
      if i < n {
        assert ms[..n][..i] == ms[..i];
        assert Arrives(ms[..n], i, v);
      }
    }
  }

  predicate Newer(w: Vote, v: Vote) { About(v, w.mn, w.signal) && v.time < w.time }

  lemma KeptStays(ms: seq<Message>, v: Vote)
    requires ms != []
    ensures var n := |ms| - 1; var m := ms[n];
            Kept(ms[..n], v) && !(Counts(m) && Newer(m.vote, v)) ==> Kept(ms, v)
  {
    hide Tops;
    var n := |ms| - 1;
    DecidingNext(ms);
    if Kept(ms[..n], v) && !(Counts(ms[n]) && Newer(ms[n].vote, v)) {
      var i :| 0 <= i < n && Arrives(ms[..n], i, v);
      assert ms[..n][..i] == ms[..i];
      assert Arrives(ms, i, v);
    }
  }

  lemma KeptNow(ms: seq<Message>)
    requires ms != []
    ensures var n := |ms| - 1; Counts(ms[n]) && Tops(Deciding(ms[..n]), ms[n].vote) ==> Kept(ms, ms[n].vote)
  {
    var n := |ms| - 1;
    DecidingNext(ms);
    if Counts(ms[n]) && Tops(Deciding(ms[..n]), ms[n].vote) { assert Arrives(ms, n, ms[n].vote); }
  }

  /** The file holds exactly the votes of the winning timestamp that met no higher one when they arrived. */
  lemma {:induction false} StoredIff(hash: int, ms: seq<Message>, v: Vote)
    requires ForObject(hash, ms) && NoRateChecks(ms)
    ensures v in Process(hash, ms).file.index <==> Kept(ms, v)
  {
    hide Inv, ProcessVote, Kept, Tops, Best;
    if ms == [] {
      NothingKept(v);
    } else {
      var n := |ms| - 1;
      var before, m := ms[..n], ms[n];
      var o := Process(hash, before);
      ProcessKeeps(hash, before);
      StoredIff(hash, before, v);
      TopsIsBest(hash, before, m.vote);
      StoredNext(o, m, v);
      KeptNext(ms, v);
      KeptStays(ms, v);
      KeptNow(ms);
      if v in o.file.index { StoredCurrent(hash, before, m.vote, v); }
    }
  }

  lemma NothingKept(v: Vote)
    ensures !Kept([], v) && v !in Fresh(0).file.index
  {}

  /** A stored vote is replaced by a newer one exactly when that one counts, for then it is accepted. */
  lemma StoredCurrent(hash: int, ms: seq<Message>, w: Vote, v: Vote)
    requires ForObject(hash, ms) && NoRateChecks(ms) && v in Process(hash, ms).file.index && w.parent == hash
    ensures Replaces(w, v) <==> Newer(w, v)
    ensures Newer(w, v) ==> AtMost(Best(Process(hash, ms), w.mn, w.signal), RankOf(w))
  {
    hide Process, FileInv, CurrentOk;
    ProcessKeeps(hash, ms);
    assert StoredOk(Process(hash, ms), v);
  }

  // ---------------------------------------------------------------- when the order does not matter

  /** Of the votes about `(mn, s)` the file holds the winning one and no other. */
  predicate OnlyWinner(o: Object, votes: set<Vote>, mn: OutPoint, s: int) {
    forall v :: v in o.file.index + votes && About(v, mn, s) ==>
      (v in o.file.index <==> v in votes && RankOf(v) == Best(o, mn, s))
  }

  /** No two of the votes about `(mn, s)` share the winner's timestamp. */
  predicate Unrivalled(votes: set<Vote>, mn: OutPoint, s: int, best: Rank) {
    forall u, v :: u in votes && v in votes && About(u, mn, s) && About(v, mn, s) && u.time == v.time == best.time ==> u == v
  }

  predicate SameVotes(hash: int, ms: seq<Message>, votes: set<Vote>) {
    ForObject(hash, ms) && NoRateChecks(ms) && Deciding(ms) == votes
  }

  lemma UnrivalledKeepsOne(hash: int, ms: seq<Message>, mn: OutPoint, s: int)
    requires ForObject(hash, ms) && NoRateChecks(ms)
    requires Unrivalled(Deciding(ms), mn, s, Best(Process(hash, ms), mn, s))
    ensures OnlyWinner(Process(hash, ms), Deciding(ms), mn, s)
  {
    hide Process, Deciding;
    var o, votes := Process(hash, ms), Deciding(ms);
    var best := Best(o, mn, s);
    CurrentIsWinner(hash, ms, mn, s);
    forall v | v in o.file.index + votes && About(v, mn, s) ensures v in o.file.index <==> v in votes && RankOf(v) == best {
      StoredIff(hash, ms, v);
      if v in o.file.index { KeptIsLatest(ms, v); }
      if v in votes && RankOf(v) == best { WinnerKept(hash, ms, v); }
      if v in o.file.index && best != DEFAULT_RANK {
        var w :| w in votes && About(w, mn, s) && RankOf(w) == best;
      }
    }
  }

  lemma KeptIsLatest(ms: seq<Message>, v: Vote)
    requires Kept(ms, v)
    ensures v in Deciding(ms) && Latest(Deciding(ms), v) && AtMost(DEFAULT_RANK, RankOf(v))
  {
    var i :| 0 <= i < |ms| && Arrives(ms, i, v);
    assert Counts(ms[i]) && ms[i].vote == v;
  }

  lemma WinnerKept(hash: int, ms: seq<Message>, v: Vote)
    requires ForObject(hash, ms) && NoRateChecks(ms)
    requires v in Deciding(ms) && RankOf(v) == Best(Process(hash, ms), v.mn, v.signal)
    ensures Kept(ms, v)
  {
    hide Process;
    CurrentIsWinner(hash, ms, v.mn, v.signal);
    var i :| 0 <= i < |ms| && Counts(ms[i]) && ms[i].vote == v;
    DecidingPrefix(ms, i);
    assert Arrives(ms, i, v);
  }

  lemma DecidingPrefix(ms: seq<Message>, i: nat)
    requires i <= |ms|
    ensures Deciding(ms[..i]) <= Deciding(ms)
  {
    forall v | v in Deciding(ms[..i]) ensures v in Deciding(ms) {
      var j :| 0 <= j < i && Counts(ms[..i][j]) && ms[..i][j].vote == v;
      assert Counts(ms[j]) && ms[j].vote == v;
    }
  }

  /** The votes as valid messages, in the given order. */
  function Sent(vs: seq<Vote>): (ms: seq<Message>)
    ensures |ms| == |vs|
  {
    seq(|vs|, i requires 0 <= i < |vs| => Message(vs[i], true, true, true, false, 0))
  }

  lemma SentDecides(vs: seq<Vote>)
    requires forall v :: v in vs ==> 1 <= v.signal <= MAX_SIGNAL
    ensures Deciding(Sent(vs)) == set v | v in vs
  {
    forall v | v in vs ensures v in Deciding(Sent(vs)) {
      var i :| 0 <= i < |vs| && vs[i] == v;
      assert Counts(Sent(vs)[i]) && Sent(vs)[i].vote == v;
    }
  }

  lemma {:induction false} Listing(votes: set<Vote>) returns (vs: seq<Vote>)
    ensures forall v :: v in vs <==> v in votes
    decreases |votes|
  {
    vs := [];
    if votes != {} {
      var v :| v in votes;
      vs := Listing(votes - {v});
      vs := [v] + vs;
    }
  }

  /** Two votes of the winning timestamp, the lesser outcome sent first: both are kept. */
  lemma RivalsBothKept(hash: int, votes: set<Vote>, mn: OutPoint, s: int, best: Rank, u: Vote, v: Vote) returns (ms: seq<Message>)
    requires Wins(votes, mn, s, best) && forall w :: w in votes ==> w.parent == hash && 1 <= w.signal <= MAX_SIGNAL
    requires u in votes && v in votes && About(u, mn, s) && About(v, mn, s) && u.time == v.time == best.time && u.outcome < v.outcome
    ensures SameVotes(hash, ms, votes) && !OnlyWinner(Process(hash, ms), votes, mn, s)
  {
    hide Process;
    var vs := Listing(votes);
    var all := [u, v] + vs;
    ms := Sent(all);
    SentDecides(all);
    assert Deciding(ms) == votes;
    assert ms[..0] == [] && ms[..1] == [ms[0]];
    DecidingOne(ms[0]);
    assert Arrives(ms, 0, u) && Arrives(ms, 1, v);
    StoredIff(hash, ms, u);
    StoredIff(hash, ms, v);
  }

  lemma DecidingOne(m: Message)
    ensures Deciding([]) == {} && Deciding([m]) <= {m.vote}
  {}

  /** The file is the winner alone in every order if and only if no two deciding votes share the winner's timestamp. */
  lemma FileDeterminedIff(hash: int, ms: seq<Message>, mn: OutPoint, s: int)
    requires ForObject(hash, ms) && NoRateChecks(ms)
    ensures (forall other :: SameVotes(hash, other, Deciding(ms)) ==> OnlyWinner(Process(hash, other), Deciding(ms), mn, s))
            <==> Unrivalled(Deciding(ms), mn, s, Best(Process(hash, ms), mn, s))
  {
    hide Process, OnlyWinner, Unrivalled, Deciding;
    var votes, best := Deciding(ms), Best(Process(hash, ms), mn, s);
    CurrentIsWinner(hash, ms, mn, s);
    if Unrivalled(votes, mn, s, best) {
      forall other | SameVotes(hash, other, votes) ensures OnlyWinner(Process(hash, other), votes, mn, s) {
        CurrentIsWinner(hash, other, mn, s);
        WinnerUnique(votes, mn, s, best, Best(Process(hash, other), mn, s));
        UnrivalledKeepsOne(hash, other, mn, s);
      }
    } else {
      var u, v := Rivals(hash, ms, mn, s, best);
      var other := RivalsBothKept(hash, votes, mn, s, best, u, v);
    }
  }

  lemma Rivals(hash: int, ms: seq<Message>, mn: OutPoint, s: int, best: Rank) returns (u: Vote, v: Vote)
    requires ForObject(hash, ms) && !Unrivalled(Deciding(ms), mn, s, best)
    ensures forall w :: w in Deciding(ms) ==> w.parent == hash && 1 <= w.signal <= MAX_SIGNAL
    ensures u in Deciding(ms) && v in Deciding(ms) && About(u, mn, s) && About(v, mn, s)
    ensures u.time == v.time == best.time && u.outcome < v.outcome
  {
    var votes := Deciding(ms);
    u, v :| u in votes && v in votes && About(u, mn, s) && About(v, mn, s) && u.time == v.time == best.time && u != v;
    if u.outcome > v.outcome { u, v := v, u; }
  }

  // ---------------------------------------------------------------- dropping invalid votes

  /** Two votes of one timestamp in ascending outcome, the greater found invalid later: the lesser stays behind alone. */
  lemma RemoveInvalidCanFail(hash: int, mn: OutPoint, time: int)
    requires time > 0
    ensures var yes, no := Vote(mn, hash, SIGNAL_FUNDING, 1, time), Vote(mn, hash, SIGNAL_FUNDING, 2, time);
            var o := Process(hash, Sent([yes, no]));
            Inv(o) && !Inv(RemoveInvalid(o, mn, v => v != no))
  {
    hide Process, Inv;
    var yes, no := Vote(mn, hash, SIGNAL_FUNDING, 1, time), Vote(mn, hash, SIGNAL_FUNDING, 2, time);
    var ms := Sent([yes, no]);
    var o := Process(hash, ms);
    ProcessKeeps(hash, ms);
    SentDecides([yes, no]);
    assert Deciding(ms) == {yes, no};
    assert ms[..0] == [] && ms[..1] == [ms[0]];
    DecidingOne(ms[0]);
    assert Arrives(ms, 0, yes);
    StoredIff(hash, ms, yes);
    CurrentIsWinner(hash, ms, mn, SIGNAL_FUNDING);
    WinnerUnique({yes, no}, mn, SIGNAL_FUNDING, Best(o, mn, SIGNAL_FUNDING), RankOf(no));
    var valid: Vote -> bool := v => v != no;
    assert CurrentVote(o, mn, SIGNAL_FUNDING) == no;
    RemoveInvalidKeepsIff(o, mn, valid);
    assert valid(yes) && !valid(CurrentVote(o, mn, yes.signal));
  }
}
