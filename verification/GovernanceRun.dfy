/** The tally does not depend on the order in which votes arrive; what the vote file holds does. */
module GovernanceRun {
  import opened Governance
  import Coins

  // ---------------------------------------------------------------- the winning vote

  /** A vote's place in the order that decides: timestamp first, then outcome. */
  datatype Rank = Rank(time: int, outcome: nat)

  predicate AtMost(a: Rank, b: Rank) { a.time < b.time || (a.time == b.time && a.outcome <= b.outcome) }
  function Later(a: Rank, b: Rank): Rank { if AtMost(a, b) then b else a }
  function RankOf(v: Vote): Rank { Rank(v.time, v.outcome) }

  const DEFAULT_RANK := Rank(0, OUTCOME_NONE)

  function Best(o: Object, mn: OutPoint, signal: int): Rank {
    var i := InstanceOf(o, mn, signal);
    Rank(i.created, i.outcome)
  }

  predicate Counts(m: Message) { m.known && m.valid && m.recorded && 1 <= m.vote.signal <= MAX_SIGNAL }
  predicate About(v: Vote, mn: OutPoint, signal: int) { v.mn == mn && v.signal == signal }

  lemma BestAfter(o: Object, m: Message, mn: OutPoint, s: int)
    requires Inv(o) && m.vote.parent == o.hash && !m.rateChecks
    ensures Best(ProcessVote(o, m).0, mn, s)
            == if Counts(m) && About(m.vote, mn, s) then Later(Best(o, mn, s), RankOf(m.vote)) else Best(o, mn, s)
  {
    hide FileInv, AddVote;
    if m.vote in o.file.index { assert StoredOk(o, m.vote); }
  }

  function Fresh(hash: int): Object { Object(hash, map[], EMPTY_FILE) }

  function Process(hash: int, ms: seq<Message>): Object {
    if ms == [] then Fresh(hash) else ProcessVote(Process(hash, ms[..|ms| - 1]), ms[|ms| - 1]).0
  }

  predicate ForObject(hash: int, ms: seq<Message>) { forall i :: 0 <= i < |ms| ==> ms[i].vote.parent == hash }

  lemma {:induction false} ProcessKeeps(hash: int, ms: seq<Message>)
    requires ForObject(hash, ms)
    ensures Inv(Process(hash, ms)) && Process(hash, ms).hash == hash
  {
    if ms != [] {
      var before := ms[..|ms| - 1];
      ProcessKeeps(hash, before);
      ProcessVoteKeeps(Process(hash, before), ms[|ms| - 1]);
    }
  }

  /** The votes that may decide: sent by a listed masternode, valid, of a supported signal. */
  function Deciding(ms: seq<Message>): set<Vote> { set i | 0 <= i < |ms| && Counts(ms[i]) :: ms[i].vote }

  /** `best` is the lexicographically greatest of the votes, or the default when none reaches it. */
  predicate Wins(votes: set<Vote>, mn: OutPoint, s: int, best: Rank) {
    && AtMost(DEFAULT_RANK, best)
    && (forall v :: v in votes && About(v, mn, s) ==> AtMost(RankOf(v), best))
    && (best == DEFAULT_RANK || exists v :: v in votes && About(v, mn, s) && RankOf(v) == best)
  }

  lemma WinnerUnique(votes: set<Vote>, mn: OutPoint, s: int, a: Rank, b: Rank)
    requires Wins(votes, mn, s, a) && Wins(votes, mn, s, b)
    ensures a == b
  {}

  lemma DecidingNext(ms: seq<Message>)
    requires ms != []
    ensures var m := ms[|ms| - 1];
            Deciding(ms) == Deciding(ms[..|ms| - 1]) + if Counts(m) then {m.vote} else {}
  {
    var n := |ms| - 1;
    var before := ms[..n];
    forall v ensures v in Deciding(ms) <==> v in Deciding(before) + if Counts(ms[n]) then {ms[n].vote} else {} {
      if v in Deciding(before) {
        var i :| 0 <= i < |before| && Counts(before[i]) && before[i].vote == v;
        assert Counts(ms[i]) && ms[i].vote == v;
      }
      if v in Deciding(ms) {
        var i :| 0 <= i < |ms| && Counts(ms[i]) && ms[i].vote == v;
        assert i < n ==> Counts(before[i]) && before[i].vote == v;
      }
    }
  }

  predicate NoRateChecks(ms: seq<Message>) { forall i :: 0 <= i < |ms| ==> !ms[i].rateChecks }

  /** After any messages, each masternode's vote on each signal is the greatest of its deciding votes. */
  lemma {:induction false} CurrentIsWinner(hash: int, ms: seq<Message>, mn: OutPoint, s: int)
    requires ForObject(hash, ms) && NoRateChecks(ms)
    ensures Wins(Deciding(ms), mn, s, Best(Process(hash, ms), mn, s))
  {
    hide Inv, ProcessVote;
    if ms != [] {
      var before, m := ms[..|ms| - 1], ms[|ms| - 1];
      var o := Process(hash, before);
      CurrentIsWinner(hash, before, mn, s);
      ProcessKeeps(hash, before);
      BestAfter(o, m, mn, s);
      DecidingNext(ms);
      WinsNext(Deciding(before), m, mn, s, Best(o, mn, s));
    }
  }

  lemma WinsNext(votes: set<Vote>, m: Message, mn: OutPoint, s: int, best: Rank)
    requires Wins(votes, mn, s, best)
    ensures var more := votes + if Counts(m) then {m.vote} else {};
            Wins(more, mn, s, if Counts(m) && About(m.vote, mn, s) then Later(best, RankOf(m.vote)) else best)
  {
    var more := votes + if Counts(m) then {m.vote} else {};
    assert Counts(m) ==> m.vote in more;
    if v :| v in votes && About(v, mn, s) && RankOf(v) == best { assert v in more; }
  }

  // ---------------------------------------------------------------- tallies

  function Voters(o: Object, signal: int, outcome: nat): set<OutPoint> {
    set mn | mn in o.current && signal in o.current[mn] && o.current[mn][signal].outcome == outcome
  }

  /** `CountMatchingVotes`. */
  function Tally(o: Object, signal: int, outcome: nat): nat { |Voters(o, signal, outcome)| }

  /** The message brings a vote of the masternode on the signal into being, whatever becomes of it. */
  predicate Touches(m: Message, mn: OutPoint, signal: int) {
    m.known && 1 <= m.vote.signal <= MAX_SIGNAL && About(m.vote, mn, signal)
  }

  predicate Touched(ms: seq<Message>, mn: OutPoint, signal: int) {
    exists i :: 0 <= i < |ms| && Touches(ms[i], mn, signal)
  }

  predicate HasInstance(o: Object, mn: OutPoint, signal: int) { signal in RecordOf(o, mn) }

  lemma InstanceAfter(o: Object, m: Message, mn: OutPoint, s: int)
    requires Inv(o) && m.vote.parent == o.hash
    ensures HasInstance(ProcessVote(o, m).0, mn, s) <==> HasInstance(o, mn, s) || Touches(m, mn, s)
  {
    hide FileInv, AddVote, CurrentOk;
    if m.vote in o.file.index { assert StoredOk(o, m.vote); }
  }

  lemma {:induction false} InstanceIffTouched(hash: int, ms: seq<Message>, mn: OutPoint, s: int)
    requires ForObject(hash, ms)
    ensures HasInstance(Process(hash, ms), mn, s) <==> Touched(ms, mn, s)
  {
    hide Inv, ProcessVote, HasInstance, Touches;
    if ms == [] {
      NoInstance(hash, mn, s);
    } else {
      var n := |ms| - 1;
      var before := ms[..n];
      InstanceIffTouched(hash, before, mn, s);
      ProcessKeeps(hash, before);
      InstanceAfter(Process(hash, before), ms[n], mn, s);
      if Touched(ms, mn, s) {
        var i :| 0 <= i < |ms| && Touches(ms[i], mn, s);
        assert i < n ==> Touches(before[i], mn, s);
      }
      if Touched(before, mn, s) {
        var i :| 0 <= i < |before| && Touches(before[i], mn, s);
        assert Touches(ms[i], mn, s);
      }
    }
  }

  lemma NoInstance(hash: int, mn: OutPoint, s: int)
    ensures !HasInstance(Fresh(hash), mn, s)
  {}

  /** Who is counted for which outcome: those touched, by their winning vote. */
  lemma VotersIff(hash: int, ms: seq<Message>, mn: OutPoint, s: int, outcome: nat, best: Rank)
    requires ForObject(hash, ms) && NoRateChecks(ms) && Wins(Deciding(ms), mn, s, best)
    ensures mn in Voters(Process(hash, ms), s, outcome) <==> Touched(ms, mn, s) && best.outcome == outcome
  {
    hide Process, Wins, Touched;
    CurrentIsWinner(hash, ms, mn, s);
    WinnerUnique(Deciding(ms), mn, s, best, Best(Process(hash, ms), mn, s));
    InstanceIffTouched(hash, ms, mn, s);
  }

  /** A vote that decides has touched. */
  lemma DecidingTouches(ms: seq<Message>, v: Vote)
    requires v in Deciding(ms)
    ensures Touched(ms, v.mn, v.signal)
  {
    var i :| 0 <= i < |ms| && Counts(ms[i]) && ms[i].vote == v;
    assert Touches(ms[i], v.mn, v.signal);
  }

  lemma SameVoter(hash: int, a: seq<Message>, b: seq<Message>, mn: OutPoint, s: int, outcome: nat)
    requires ForObject(hash, a) && NoRateChecks(a) && ForObject(hash, b) && NoRateChecks(b) && Deciding(a) == Deciding(b)
    requires outcome != OUTCOME_NONE || (Touched(a, mn, s) <==> Touched(b, mn, s))
    ensures mn in Voters(Process(hash, a), s, outcome) <==> mn in Voters(Process(hash, b), s, outcome)
  {
    hide Process, Touched, Voters, Deciding;
    var best := Best(Process(hash, a), mn, s);
    CurrentIsWinner(hash, a, mn, s);
    VotersIff(hash, a, mn, s, outcome, best);
    VotersIff(hash, b, mn, s, outcome, best);
    if best != DEFAULT_RANK {
      var v :| v in Deciding(a) && About(v, mn, s) && RankOf(v) == best;
      DecidingTouches(a, v);
      DecidingTouches(b, v);
    }
  }

  ghost predicate SameVoters(hash: int, a: seq<Message>, b: seq<Message>, signal: int) {
    forall outcome: nat :: Voters(Process(hash, a), signal, outcome) == Voters(Process(hash, b), signal, outcome)
  }

  ghost predicate SameTouched(a: seq<Message>, b: seq<Message>, signal: int) {
    forall mn :: Touched(a, mn, signal) <==> Touched(b, mn, signal)
  }

  lemma VotersIfTouched(hash: int, a: seq<Message>, b: seq<Message>, signal: int, outcome: nat)
    requires ForObject(hash, a) && NoRateChecks(a) && ForObject(hash, b) && NoRateChecks(b) && Deciding(a) == Deciding(b)
    requires outcome != OUTCOME_NONE || SameTouched(a, b, signal)
    ensures Voters(Process(hash, a), signal, outcome) == Voters(Process(hash, b), signal, outcome)
  {
    hide Process, Touched, Deciding, Voters;
    var p, q := Process(hash, a), Process(hash, b);
    forall mn ensures mn in Voters(p, signal, outcome) <==> mn in Voters(q, signal, outcome) {
      SameVoter(hash, a, b, mn, signal, outcome);
    }
  }

  /** Any order, any repetition, any rejects in between: the same deciding votes give the same tallies. Outcome NONE also
    * counts masternodes whose every vote was refused, so there the touched ones must agree too.
    */
  lemma TalliesAgree(hash: int, a: seq<Message>, b: seq<Message>, signal: int, outcome: nat)
    requires ForObject(hash, a) && NoRateChecks(a) && ForObject(hash, b) && NoRateChecks(b) && Deciding(a) == Deciding(b)
    requires outcome != OUTCOME_NONE || SameTouched(a, b, signal)
    ensures Tally(Process(hash, a), signal, outcome) == Tally(Process(hash, b), signal, outcome)
  {
    hide Process, Touched, Deciding, Voters;
    VotersIfTouched(hash, a, b, signal, outcome);
  }

  lemma TouchedIfVoters(hash: int, a: seq<Message>, b: seq<Message>, mn: OutPoint, signal: int)
    requires ForObject(hash, a) && NoRateChecks(a) && ForObject(hash, b) && NoRateChecks(b) && Deciding(a) == Deciding(b)
    requires SameVoters(hash, a, b, signal)
    ensures Touched(a, mn, signal) <==> Touched(b, mn, signal)
  {
    hide Process, Touched, Deciding, Wins, Voters;
    var best := Best(Process(hash, a), mn, signal);
    CurrentIsWinner(hash, a, mn, signal);
    VotersIff(hash, a, mn, signal, best.outcome, best);
    VotersIff(hash, b, mn, signal, best.outcome, best);
    assert Voters(Process(hash, a), signal, best.outcome) == Voters(Process(hash, b), signal, best.outcome);
  }

  /** The exact condition: the voters of every outcome agree if and only if the same masternodes were touched. */
  lemma VotersAgreeIff(hash: int, a: seq<Message>, b: seq<Message>, signal: int)
    requires ForObject(hash, a) && NoRateChecks(a) && ForObject(hash, b) && NoRateChecks(b) && Deciding(a) == Deciding(b)
    ensures SameVoters(hash, a, b, signal) <==> SameTouched(a, b, signal)
  {
    hide Process, Touched, Deciding, Voters;
    if SameTouched(a, b, signal) {
      forall outcome: nat ensures Voters(Process(hash, a), signal, outcome) == Voters(Process(hash, b), signal, outcome) {
        VotersIfTouched(hash, a, b, signal, outcome);
      }
    }
    if SameVoters(hash, a, b, signal) {
      forall mn ensures Touched(a, mn, signal) <==> Touched(b, mn, signal) { TouchedIfVoters(hash, a, b, mn, signal); }
    }
  }

  /** When every message is a vote that decides, all tallies depend on the set of votes alone. */
  lemma OrderIndependent(hash: int, a: seq<Message>, b: seq<Message>, signal: int, outcome: nat)
    requires ForObject(hash, a) && NoRateChecks(a) && ForObject(hash, b) && NoRateChecks(b) && Deciding(a) == Deciding(b)
    requires (forall i :: 0 <= i < |a| ==> Counts(a[i])) && (forall i :: 0 <= i < |b| ==> Counts(b[i]))
    ensures Tally(Process(hash, a), signal, outcome) == Tally(Process(hash, b), signal, outcome)
  {
    hide Process;
    forall mn ensures Touched(a, mn, signal) <==> Touched(b, mn, signal) {
      if Touched(a, mn, signal) { TouchedFollows(a, b, mn, signal); }
      if Touched(b, mn, signal) { TouchedFollows(b, a, mn, signal); }
    }
    TalliesAgree(hash, a, b, signal, outcome);
  }

  lemma TouchedFollows(a: seq<Message>, b: seq<Message>, mn: OutPoint, s: int)
    requires Deciding(a) == Deciding(b) && (forall i :: 0 <= i < |a| ==> Counts(a[i])) && Touched(a, mn, s)
    ensures Touched(b, mn, s)
  {
    var i :| 0 <= i < |a| && Touches(a[i], mn, s);
    assert a[i].vote in Deciding(a);
    DecidingTouches(b, a[i].vote);
  }

  /** A refused vote, and no vote at all: the deciding votes are the same, the tally of NONE is not. */
  lemma NoneCanDiffer(hash: int, mn: OutPoint, time: int)
    ensures var a: seq<Message> := [];
            var b := [Message(Vote(mn, hash, SIGNAL_FUNDING, 1, time), true, false, true, false, 0)];
            && ForObject(hash, b) && NoRateChecks(b) && Deciding(a) == Deciding(b)
            && Tally(Process(hash, a), SIGNAL_FUNDING, OUTCOME_NONE) != Tally(Process(hash, b), SIGNAL_FUNDING, OUTCOME_NONE)
  {
    var a: seq<Message> := [];
    var b := [Message(Vote(mn, hash, SIGNAL_FUNDING, 1, time), true, false, true, false, 0)];
    assert Touches(b[0], mn, SIGNAL_FUNDING);
    assert Deciding(a) == {} && Deciding(b) == {};
    VotersIff(hash, b, mn, SIGNAL_FUNDING, OUTCOME_NONE, DEFAULT_RANK);
    assert Voters(Process(hash, a), SIGNAL_FUNDING, OUTCOME_NONE) == {};
    assert mn in Voters(Process(hash, b), SIGNAL_FUNDING, OUTCOME_NONE);
  }

  /** What the file keeps for a masternode and signal: the winner, and only votes of the winner's timestamp. */
  lemma FileHoldsWinner(hash: int, ms: seq<Message>, mn: OutPoint, s: int)
    requires ForObject(hash, ms) && NoRateChecks(ms)
    ensures var o := Process(hash, ms); var best := Best(o, mn, s);
            && (best != DEFAULT_RANK ==> Vote(mn, hash, s, best.outcome, best.time) in o.file.list)
            && (forall v :: v in o.file.list && About(v, mn, s) ==> v.time == best.time && v.outcome <= best.outcome)
            && o.file.count == |o.file.list|
  {
    ProcessKeeps(hash, ms);
    var o := Process(hash, ms);
    if mn in o.current && s in o.current[mn] { assert CurrentOk(o, mn, s); }
    forall v | v in o.file.list && About(v, mn, s) ensures v.time == Best(o, mn, s).time && v.outcome <= Best(o, mn, s).outcome {
      assert v in o.file.index;
      assert StoredOk(o, v);
    }
  }

  /** Two votes of one timestamp: the file keeps both or one, depending on which came first. */
  lemma FileDependsOnOrder(hash: int, mn: OutPoint, time: int)
    requires time > 0
    ensures exists a, b: seq<Message> ::
              && ForObject(hash, a) && NoRateChecks(a) && ForObject(hash, b) && NoRateChecks(b)
              && Deciding(a) == Deciding(b) && Process(hash, a).file.count != Process(hash, b).file.count
  {
    hide Process;
    var yes := Message(Vote(mn, hash, SIGNAL_FUNDING, 1, time), true, true, true, false, 0);
    var no := Message(Vote(mn, hash, SIGNAL_FUNDING, 2, time), true, true, true, false, 0);
    TwoVotes(hash, yes, no);
    TwoVotes(hash, no, yes);
    var a, b := [yes, no], [no, yes];
    DecidingTwo(yes, no);
    DecidingTwo(no, yes);
    assert Process(hash, a).file.count != Process(hash, b).file.count;
  }

  lemma DecidingTwo(a: Message, b: Message)
    requires Counts(a) && Counts(b)
    ensures Deciding([a, b]) == {a.vote, b.vote}
  {
    var ms := [a, b];
    assert Counts(ms[0]) && Counts(ms[1]);
    assert ms[0].vote == a.vote && ms[1].vote == b.vote;
  }

  lemma TwoVotes(hash: int, a: Message, b: Message)
    requires Counts(a) && Counts(b) && !a.rateChecks && !b.rateChecks
    requires a.vote.parent == b.vote.parent == hash && About(a.vote, b.vote.mn, b.vote.signal)
    requires a.vote.time == b.vote.time > 0 && a.vote.outcome != b.vote.outcome
    ensures Process(hash, [a, b]).file.count == if a.vote.outcome < b.vote.outcome then 2 else 1
  {
    hide AddVote, FileInv, StoredOk, CurrentOk;
    assert [a, b][..1] == [a] && [a][..0] == [];
    assert Process(hash, []) == Fresh(hash);
    var o := Process(hash, [a]);
    assert o == ProcessVote(Fresh(hash), a).0;
    EmptyFileOk();
    ProcessKeeps(hash, [a]);
    AddToFile(EMPTY_FILE, a.vote);
    assert o.file.index == {a.vote} && o.file.count == 1;
    AddToFile(o.file, b.vote);
  }

  lemma EmptyFileOk()
    ensures FileInv(EMPTY_FILE)
  {}

  lemma AddToFile(f: File, v: Vote)
    requires FileInv(f) && v !in f.index && forall w :: w in f.index ==> w.time >= v.time
    ensures AddVote(f, v).index == f.index + {v} && AddVote(f, v).count == f.count + 1
  {
    AddVoteKeeps(f, v);
    var g := AddVote(f, v);
    assert forall w :: w in g.index <==> w == v || w in f.index;
    WithoutNone([v] + f.list, w => Replaces(v, w));
  }

  lemma {:induction false} WithoutNone(list: seq<Vote>, drop: Vote -> bool)
    requires forall v :: v in list ==> !drop(v)
    ensures Without(list, drop) == list
  {
    if list != [] {
      assert list[0] in list;
      WithoutNone(list[1..], drop);
    }
  }

  // ---------------------------------------------------------------- dropping invalid votes

  /** After a key change: stored votes stay current exactly when no valid vote is left behind an invalid winner. */
  lemma RemoveInvalidKeepsIff(o: Object, mn: OutPoint, valid: Vote -> bool)
    requires Inv(o)
    ensures Inv(RemoveInvalid(o, mn, valid))
            <==> forall v :: v in o.file.index && v.mn == mn && valid(v) ==> valid(CurrentVote(o, mn, v.signal))
  {
    var p := RemoveInvalid(o, mn, valid);
    RemoveKeeps(o.file, (v: Vote) => v.mn == mn && !valid(v));
    if forall v :: v in o.file.index && v.mn == mn && valid(v) ==> valid(CurrentVote(o, mn, v.signal)) {
      forall w | w in p.file.index ensures StoredOk(p, w) { StoredSurvives(o, mn, valid, w); }
      forall n, s | n in p.current && s in p.current[n] ensures CurrentOk(p, n, s) { CurrentSurvives(o, mn, valid, n, s); }
    } else {
      var v :| v in o.file.index && v.mn == mn && valid(v) && !valid(CurrentVote(o, mn, v.signal));
      LeftBehind(o, mn, valid, v);
    }
  }

  /** Exactly the masternode's invalid votes go from the file, and its current votes that were among them from its record;
    * nothing happens to other masternodes.
    */
  lemma RemoveInvalidEffect(o: Object, mn: OutPoint, valid: Vote -> bool)
    requires Inv(o)
    ensures var p := RemoveInvalid(o, mn, valid);
            && (forall v :: v in p.file.index <==> v in o.file.index && (v.mn != mn || valid(v)))
            && (forall n :: n != mn ==> RecordOf(p, n) == RecordOf(o, n) && (n in p.current <==> n in o.current))
            && (forall s :: s in RecordOf(p, mn) <==>
                  s in RecordOf(o, mn) && (CurrentVote(o, mn, s) in o.file.index ==> valid(CurrentVote(o, mn, s))))
            && (forall s :: s in RecordOf(p, mn) ==> RecordOf(p, mn)[s] == RecordOf(o, mn)[s])
  {
    hide CurrentOk;
    RemoveKeeps(o.file, (v: Vote) => v.mn == mn && !valid(v));
    forall v | v in o.file.index ensures v.mn in o.current { assert StoredOk(o, v); }
    var bad := set v | v in o.file.list && v.mn == mn && !valid(v);
    forall v ensures v in bad <==> v in o.file.index && v.mn == mn && !valid(v) {}
    if bad == {} {
      forall s ensures CurrentVote(o, mn, s) in o.file.index ==> valid(CurrentVote(o, mn, s)) {
        assert CurrentVote(o, mn, s) !in bad;
      }
      forall v ensures v in o.file.index ==> v.mn != mn || valid(v) { assert v !in bad; }
    }
  }

  /** The current vote of a stored vote's masternode and signal is itself stored. */
  lemma CurrentStored(o: Object, v: Vote)
    requires Inv(o) && v in o.file.index
    ensures CurrentVote(o, v.mn, v.signal) in o.file.index
  {
    assert StoredOk(o, v) && CurrentOk(o, v.mn, v.signal);
  }

  lemma LeftBehind(o: Object, mn: OutPoint, valid: Vote -> bool, v: Vote)
    requires Inv(o) && v in o.file.index && v.mn == mn && valid(v) && !valid(CurrentVote(o, mn, v.signal))
    ensures var p := RemoveInvalid(o, mn, valid); v in p.file.index && !StoredOk(p, v)
  {
    CurrentStored(o, v);
    assert StoredOk(o, v);
    var c := CurrentVote(o, mn, v.signal);
    assert c in o.file.list && !valid(c);
    RemoveKeeps(o.file, (v: Vote) => v.mn == mn && !valid(v));
  }

  lemma StoredSurvives(o: Object, mn: OutPoint, valid: Vote -> bool, w: Vote)
    requires Inv(o) && w in RemoveInvalid(o, mn, valid).file.index
    requires w.mn == mn && valid(w) ==> valid(CurrentVote(o, mn, w.signal))
    ensures StoredOk(RemoveInvalid(o, mn, valid), w)
  {
    RemoveKeeps(o.file, (v: Vote) => v.mn == mn && !valid(v));
    assert w in o.file.index && StoredOk(o, w);
    var p := RemoveInvalid(o, mn, valid);
    var bad := set v | v in o.file.list && v.mn == mn && !valid(v);
    if w.mn == mn && bad != {} {
      assert valid(w) by { assert w in p.file.index; }
      var rec := Pruned(o, mn, bad);
      assert w.signal in rec;
      assert p.current == o.current[mn := rec];
    }
  }

  lemma CurrentSurvives(o: Object, mn: OutPoint, valid: Vote -> bool, n: OutPoint, s: int)
    requires Inv(o)
    requires var p := RemoveInvalid(o, mn, valid); n in p.current && s in p.current[n]
    ensures CurrentOk(RemoveInvalid(o, mn, valid), n, s)
  {
    RemoveKeeps(o.file, (v: Vote) => v.mn == mn && !valid(v));
    assert n in o.current && s in o.current[n] && CurrentOk(o, n, s);
    assert CurrentVote(o, n, s) in o.file.index <==> CurrentVote(o, n, s) in o.file.list;
  }
}
