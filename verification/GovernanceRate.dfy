/** Votes under rate checks, as the node applies them to votes from the network: exactly which are accepted, how far apart
  * they are, and which one is current.
  */
module GovernanceRate {
  import opened Governance
  import opened GovernanceRun

  /** The rate check lets the message pass: it is switched off, or an hour has gone by since the last vote it let pass. */
  predicate OnTime(o: Object, m: Message) {
    !m.rateChecks || m.now - InstanceOf(o, m.vote.mn, m.vote.signal).time >= 3600
  }

  /** A vote is accepted if and only if it counts, is not stored, is not behind the current one, and comes in time. */
  lemma AcceptedIff(o: Object, m: Message)
    ensures ProcessVote(o, m).1 == Accepted
            <==> Counts(m) && m.vote !in o.file.index && AtMost(Best(o, m.vote.mn, m.vote.signal), RankOf(m.vote)) && OnTime(o, m)
  {
    hide AddVote;
  }

  /** A counting vote that is new and not beaten is refused only for coming too soon. */
  lemma TooOftenIff(o: Object, m: Message)
    requires Counts(m) && m.vote !in o.file.index && AtMost(Best(o, m.vote.mn, m.vote.signal), RankOf(m.vote))
    ensures ProcessVote(o, m).1 == if OnTime(o, m) then Accepted else TooOften
  {
    hide AddVote;
  }

  predicate Supported(v: Vote) { 1 <= v.signal <= MAX_SIGNAL }

  /** What each verdict says about the message. */
  lemma VerdictMeans(o: Object, m: Message)
    ensures var r, v := ProcessVote(o, m).1, m.vote; var best := Best(o, v.mn, v.signal);
            && (r == AlreadyKnown <==> v in o.file.index)
            && (r == NoMasternode ==> !m.known) && (r == NoSignal ==> v.signal == SIGNAL_NONE)
            && (r == UnsupportedSignal ==> v.signal != SIGNAL_NONE && !Supported(v))
            && (r == Obsolete ==> v.time < best.time)
            && (r == SameTimestamp ==> v.time == best.time && v.outcome < best.outcome)
            && (r == TooOften ==> !OnTime(o, m)) && (r == Invalid ==> !m.valid) && (r == NotRecorded ==> m.valid && !m.recorded)
            && (r in {Obsolete, SameTimestamp} <==> v !in o.file.index && m.known && Supported(v) && !AtMost(best, RankOf(v)))
            && (r in {Invalid, NotRecorded, Accepted} <==>
                  v !in o.file.index && m.known && Supported(v) && AtMost(best, RankOf(v)) && OnTime(o, m))
  {
    hide AddVote;
  }

  predicate AcceptsAbout(o: Object, m: Message, mn: OutPoint, s: int) {
    ProcessVote(o, m).1 == Accepted && About(m.vote, mn, s)
  }

  /** An accepted vote becomes the current one and, under a rate check, its arrival is recorded; no other vote changes. */
  lemma InstanceNext(o: Object, m: Message, mn: OutPoint, s: int)
    ensures var i, j := InstanceOf(o, mn, s), InstanceOf(ProcessVote(o, m).0, mn, s);
            if AcceptsAbout(o, m, mn, s) then
              j.outcome == m.vote.outcome && j.created == m.vote.time && j.time == if m.rateChecks then m.now else i.time
            else j == i
  {
    hide AddVote;
  }

  /** One message moves a masternode's vote to the later of the two, if it comes in time, or not at all. */
  lemma BestAfterRated(o: Object, m: Message, mn: OutPoint, s: int)
    requires Inv(o) && m.vote.parent == o.hash
    ensures Best(ProcessVote(o, m).0, mn, s)
            == if Counts(m) && About(m.vote, mn, s) && OnTime(o, m) then Later(Best(o, mn, s), RankOf(m.vote)) else Best(o, mn, s)
  {
    hide FileInv, AddVote, ProcessVote, Counts;
    InstanceNext(o, m, mn, s);
    AcceptedIff(o, m);
    if m.vote in o.file.index { assert StoredOk(o, m.vote); }
  }

  // ---------------------------------------------------------------- runs

  predicate AcceptedAt(hash: int, ms: seq<Message>, i: nat)
    requires i < |ms|
  {
    ProcessVote(Process(hash, ms[..i]), ms[i]).1 == Accepted
  }

  /** Message `i` is a vote of the pair that passed the rate check and was accepted. */
  predicate RatedAt(hash: int, ms: seq<Message>, mn: OutPoint, s: int, i: int) {
    0 <= i < |ms| && ms[i].rateChecks && About(ms[i].vote, mn, s) && AcceptedAt(hash, ms, i)
  }

  lemma RatedBefore(hash: int, ms: seq<Message>, mn: OutPoint, s: int, i: int)
    requires ms != []
    ensures RatedAt(hash, ms[..|ms| - 1], mn, s, i) <==> i != |ms| - 1 && RatedAt(hash, ms, mn, s, i)
  {
    hide ProcessVote, Process;
    var before := ms[..|ms| - 1];
    if 0 <= i < |before| { assert before[..i] == ms[..i]; }
  }

  /** What the record of a pair's last update is: the arrival of its last such vote, or 0. */
  lemma {:induction false} LastUpdate(hash: int, ms: seq<Message>, mn: OutPoint, s: int) returns (last: int)
    ensures -1 <= last < |ms| && (forall i :: last < i ==> !RatedAt(hash, ms, mn, s, i))
    ensures InstanceOf(Process(hash, ms), mn, s).time == if last == -1 then 0 else ms[last].now
    ensures last == -1 || RatedAt(hash, ms, mn, s, last)
  {
    hide ProcessVote, RatedAt;
    last := -1;
    if ms == [] {
      NothingRated(hash, mn, s);
    } else {
      var n := |ms| - 1;
      var before, m := ms[..n], ms[n];
      var o := Process(hash, before);
      last := LastUpdate(hash, before, mn, s);
      InstanceNext(o, m, mn, s);
      forall i ensures RatedAt(hash, before, mn, s, i) <==> i != n && RatedAt(hash, ms, mn, s, i) { RatedBefore(hash, ms, mn, s, i); }
      LastRated(hash, ms, mn, s);
      if RatedAt(hash, ms, mn, s, n) { last := n; }
    }
  }

  lemma NothingRated(hash: int, mn: OutPoint, s: int)
    ensures InstanceOf(Process(hash, []), mn, s).time == 0 && forall i :: !RatedAt(hash, [], mn, s, i)
  {}

  lemma LastRated(hash: int, ms: seq<Message>, mn: OutPoint, s: int)
    requires ms != []
    ensures var n := |ms| - 1;
            && (RatedAt(hash, ms, mn, s, n) <==> ms[n].rateChecks && AcceptsAbout(Process(hash, ms[..n]), ms[n], mn, s))
            && forall i :: n < i ==> !RatedAt(hash, ms, mn, s, i)
  {
    hide ProcessVote, Process;
  }

  /** In every run, accepted votes of one masternode on one signal that were under the rate check came an hour apart. */
  lemma {:induction false} AcceptedApart(hash: int, ms: seq<Message>, mn: OutPoint, s: int, i: int, j: int)
    requires i < j && RatedAt(hash, ms, mn, s, i) && RatedAt(hash, ms, mn, s, j)
    ensures ms[j].now - ms[i].now >= 3600
    decreases j
  {
    hide ProcessVote, Process;
    var before := ms[..j];
    var o := Process(hash, before);
    AcceptedIff(o, ms[j]);
    var last := LastUpdate(hash, before, mn, s);
    RatedInPrefix(hash, ms, mn, s, i, j);
    if last > i {
      RatedInPrefix(hash, ms, mn, s, last, j);
      AcceptedApart(hash, ms, mn, s, i, last);
    }
  }

  lemma RatedInPrefix(hash: int, ms: seq<Message>, mn: OutPoint, s: int, i: int, j: nat)
    requires 0 <= i < j <= |ms|
    ensures RatedAt(hash, ms[..j], mn, s, i) <==> RatedAt(hash, ms, mn, s, i)
  {
    hide ProcessVote, Process;
    assert ms[..j][..i] == ms[..i];
  }

  /** The votes accepted in the run. */
  ghost function AcceptedVotes(hash: int, ms: seq<Message>): set<Vote> {
    set i | 0 <= i < |ms| && AcceptedAt(hash, ms, i) :: ms[i].vote
  }

  lemma AcceptedNext(hash: int, ms: seq<Message>)
    requires ms != []
    ensures var n := |ms| - 1;
            AcceptedVotes(hash, ms) == AcceptedVotes(hash, ms[..n]) + if AcceptedAt(hash, ms, n) then {ms[n].vote} else {}
  {
    hide ProcessVote, Process;
    var n := |ms| - 1;
    var before := ms[..n];
    forall i | 0 <= i < n ensures AcceptedAt(hash, before, i) <==> AcceptedAt(hash, ms, i) { assert before[..i] == ms[..i]; }
    forall v ensures v in AcceptedVotes(hash, ms) <==> v in AcceptedVotes(hash, before) + if AcceptedAt(hash, ms, n) then {ms[n].vote} else {} {
      if v in AcceptedVotes(hash, before) {
        var i :| 0 <= i < n && AcceptedAt(hash, before, i) && before[i].vote == v;
        assert AcceptedAt(hash, ms, i) && ms[i].vote == v;
      }
      if v in AcceptedVotes(hash, ms) {
        var i :| 0 <= i < |ms| && AcceptedAt(hash, ms, i) && ms[i].vote == v;
        assert i < n ==> AcceptedAt(hash, before, i) && before[i].vote == v;
      }
    }
  }

  /** Rate checks or not: after any messages each masternode's vote on each signal is the greatest of those accepted. */
  lemma {:induction false} CurrentIsGreatest(hash: int, ms: seq<Message>, mn: OutPoint, s: int)
    ensures Wins(AcceptedVotes(hash, ms), mn, s, Best(Process(hash, ms), mn, s))
  {
    hide ProcessVote;
    if ms != [] {
      var n := |ms| - 1;
      var before, m := ms[..n], ms[n];
      var o := Process(hash, before);
      CurrentIsGreatest(hash, before, mn, s);
      InstanceNext(o, m, mn, s);
      AcceptedIff(o, m);
      AcceptedNext(hash, ms);
      assert before == ms[..n];
      GreatestNext(AcceptedVotes(hash, before), m.vote, mn, s, Best(o, mn, s));
    }
  }

  lemma GreatestNext(votes: set<Vote>, v: Vote, mn: OutPoint, s: int, best: Rank)
    requires Wins(votes, mn, s, best)
    ensures !About(v, mn, s) ==> Wins(votes + {v}, mn, s, best)
    ensures About(v, mn, s) && AtMost(best, RankOf(v)) ==> Wins(votes + {v}, mn, s, RankOf(v))
  {
    assert v in votes + {v};
    if w :| w in votes && About(w, mn, s) && RankOf(w) == best { assert w in votes + {v}; }
  }
}
