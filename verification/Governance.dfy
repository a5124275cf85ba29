/** Voting on a governance object: the current vote of each masternode, and the file of votes behind it.
  * `GovernanceObject.dfy` holds the objects.
  */
module Governance {
  import opened Prelude
  import Coins

  type OutPoint = Coins.OutPoint

  /** A vote without its signature. The vote hash is taken over exactly these fields, so a vote stands for its hash. */
  datatype Vote = Vote(mn: OutPoint, parent: int, signal: int, outcome: nat, time: int)

  const SIGNAL_NONE := 0
  const SIGNAL_FUNDING := 1
  const MAX_SIGNAL := 4
  const OUTCOME_NONE := 0
  const UPDATE_MIN := 60 * 60

  // ---------------------------------------------------------------- the vote file

  datatype File = File(list: seq<Vote>, index: set<Vote>, count: int)

  const EMPTY_FILE := File([], {}, 0)

  /** The list without the votes that satisfy `drop`. */
  function Without(list: seq<Vote>, drop: Vote -> bool): seq<Vote> {
    if list == [] then []
    else if drop(list[0]) then Without(list[1..], drop)
    else [list[0]] + Without(list[1..], drop)
  }

  function Remove(f: File, drop: Vote -> bool): File {
    File(Without(f.list, drop), f.index - (set v | v in f.list && drop(v)), f.count - (|f.list| - |Without(f.list, drop)|))
  }

  /** Same masternode, object and signal, and older. */
  predicate Replaces(v: Vote, w: Vote) { w.mn == v.mn && w.parent == v.parent && w.signal == v.signal && w.time < v.time }

  function AddVote(f: File, v: Vote): File {
    if v in f.index then f
    else Remove(File([v] + f.list, f.index + {v}, f.count + 1), w => Replaces(v, w))
  }

  /** The first occurrence of each vote. */
  function Firsts(list: seq<Vote>, seen: set<Vote>): seq<Vote> {
    if list == [] then []
    else if list[0] in seen then Firsts(list[1..], seen)
    else [list[0]] + Firsts(list[1..], seen + {list[0]})
  }

  function Rebuild(list: seq<Vote>): File {
    var kept := Firsts(list, {});
    File(kept, set v | v in kept, |kept|)
  }

  /** List, index and count agree. */
  predicate FileInv(f: File) {
    && f.index == (set v | v in f.list)
    && f.count == |f.list|
    && forall i, j :: 0 <= i < j < |f.list| ==> f.list[i] != f.list[j]
  }

  lemma {:induction false} WithoutMember(list: seq<Vote>, drop: Vote -> bool)
    ensures forall v :: v in Without(list, drop) <==> v in list && !drop(v)
    ensures |Without(list, drop)| <= |list|
  {
    if list != [] {
      WithoutMember(list[1..], drop);
      assert list == [list[0]] + list[1..];
    }
  }

  lemma {:induction false} WithoutDistinct(list: seq<Vote>, drop: Vote -> bool)
    requires forall i, j :: 0 <= i < j < |list| ==> list[i] != list[j]
    ensures var w := Without(list, drop); forall i, j :: 0 <= i < j < |w| ==> w[i] != w[j]
  {
    if list != [] {
      WithoutDistinct(list[1..], drop);
      WithoutMember(list[1..], drop);
      assert list[0] !in list[1..];
    }
  }

  lemma RemoveKeeps(f: File, drop: Vote -> bool)
    requires FileInv(f)
    ensures FileInv(Remove(f, drop))
    ensures forall v :: v in Remove(f, drop).index <==> v in f.index && !drop(v)
  {
    WithoutMember(f.list, drop);
    WithoutDistinct(f.list, drop);
  }

  lemma AddVoteKeeps(f: File, v: Vote)
    requires FileInv(f)
    ensures FileInv(AddVote(f, v))
    ensures v in AddVote(f, v).index
    ensures v !in f.index ==> forall w :: w in AddVote(f, v).index <==> w == v || (w in f.index && !Replaces(v, w))
  {
    if v !in f.index {
      var g := File([v] + f.list, f.index + {v}, f.count + 1);
      assert FileInv(g);
      RemoveKeeps(g, w => Replaces(v, w));
    }
  }

  lemma {:induction false} FirstsMember(list: seq<Vote>, seen: set<Vote>)
    ensures var w := Firsts(list, seen);
            && (forall v :: v in w <==> v in list && v !in seen)
            && (forall i, j :: 0 <= i < j < |w| ==> w[i] != w[j])
  {
    if list != [] {
      FirstsMember(list[1..], seen + {list[0]});
      FirstsMember(list[1..], seen);
      assert list == [list[0]] + list[1..];
    }
  }

  lemma {:induction false} FirstsOfDistinct(list: seq<Vote>, seen: set<Vote>)
    requires forall i, j :: 0 <= i < j < |list| ==> list[i] != list[j]
    requires forall v :: v in list ==> v !in seen
    ensures Firsts(list, seen) == list
  {
    if list != [] {
      assert list[0] !in list[1..];
      FirstsOfDistinct(list[1..], seen + {list[0]});
      assert list == [list[0]] + list[1..];
    }
  }

  /** Rebuilding repairs any list, keeps its votes, and changes nothing when the file was in order. */
  lemma RebuildIsRepair(list: seq<Vote>)
    ensures FileInv(Rebuild(list)) && forall v :: v in Rebuild(list).index <==> v in list
    ensures forall f: File :: FileInv(f) && f.list == list ==> Rebuild(list) == f
  {
    FirstsMember(list, {});
    if forall i, j :: 0 <= i < j < |list| ==> list[i] != list[j] { FirstsOfDistinct(list, {}); }
  }

  // ---------------------------------------------------------------- the object

  datatype Instance = Instance(outcome: nat, time: int, created: int)

  const DEFAULT_INSTANCE := Instance(OUTCOME_NONE, 0, 0)

  type Record = map<int, Instance>

  datatype Object = Object(hash: int, current: map<OutPoint, Record>, file: File)

  /** A vote message and what the node finds when it arrives; `recorded` is the masternode metadata's answer. */
  datatype Message = Message(vote: Vote, known: bool, valid: bool, recorded: bool, rateChecks: bool, now: int)

  datatype Verdict =
    | AlreadyKnown | NoMasternode | NoSignal | UnsupportedSignal | Obsolete | SameTimestamp | TooOften | Invalid
    | NotRecorded | Accepted

  function RecordOf(o: Object, mn: OutPoint): Record { if mn in o.current then o.current[mn] else map[] }

  function InstanceOf(o: Object, mn: OutPoint, signal: int): Instance {
    if signal in RecordOf(o, mn) then RecordOf(o, mn)[signal] else DEFAULT_INSTANCE
  }

  function Judge(o: Object, m: Message): Verdict {
    var v := m.vote;
    var i := InstanceOf(o, v.mn, v.signal);
    if v in o.file.index then AlreadyKnown
    else if !m.known then NoMasternode
    else if v.signal == SIGNAL_NONE then NoSignal
    else if v.signal < 0 || v.signal > MAX_SIGNAL then UnsupportedSignal
    else if v.time < i.created then Obsolete
    else if v.time == i.created && v.outcome < i.outcome then SameTimestamp
    else if m.rateChecks && m.now - i.time < UPDATE_MIN then TooOften
    else if !m.valid then Invalid
    else if !m.recorded then NotRecorded
    else Accepted
  }

  /** `ProcessVote`; records and instances come into being before the vote is judged. */
  function ProcessVote(o: Object, m: Message): (Object, Verdict) {
    var v := m.vote;
    var verdict := Judge(o, m);
    var i := InstanceOf(o, v.mn, v.signal);
    if verdict in {AlreadyKnown, NoMasternode} then (o, verdict)
    else if verdict in {NoSignal, UnsupportedSignal} then (o.(current := o.current[v.mn := RecordOf(o, v.mn)]), verdict)
    else if verdict != Accepted then (o.(current := o.current[v.mn := RecordOf(o, v.mn)[v.signal := i]]), verdict)
    else
      var now := Instance(v.outcome, if m.rateChecks then m.now else i.time, v.time);
      (o.(current := o.current[v.mn := RecordOf(o, v.mn)[v.signal := now]], file := AddVote(o.file, v)), verdict)
  }

  /** `ClearMasternodeVotes`: votes of masternodes that left the list go, from both places. */
  function ClearVotes(o: Object, listed: set<OutPoint>): Object {
    o.(current := map mn | mn in o.current && mn in listed :: o.current[mn],
       file := Remove(o.file, (v: Vote) => v.mn in o.current && v.mn !in listed))
  }

  function CurrentVote(o: Object, mn: OutPoint, signal: int): Vote {
    var i := InstanceOf(o, mn, signal);
    Vote(mn, o.hash, signal, i.outcome, i.created)
  }

  /** The record that is left after the instances of removed votes are erased. */
  function Pruned(o: Object, mn: OutPoint, bad: set<Vote>): Record
    requires mn in o.current
  {
    map s | s in o.current[mn] && CurrentVote(o, mn, s) !in bad :: o.current[mn][s]
  }

  /** `RemoveInvalidVotes` for one masternode; `valid` is what the signature check says now. */
  function RemoveInvalid(o: Object, mn: OutPoint, valid: Vote -> bool): Object {
    if mn !in o.current then o
    else
      var bad := set v | v in o.file.list && v.mn == mn && !valid(v);
      if bad == {} then o
      else
        var rec := Pruned(o, mn, bad);
        o.(current := if rec == map[] then o.current - {mn} else o.current[mn := rec],
           file := Remove(o.file, (v: Vote) => v.mn == mn && !valid(v)))
  }

  /** Votes that are stored are current in time, and every current vote is stored. */
  predicate Inv(o: Object) {
    && FileInv(o.file)
    && (forall v :: v in o.file.index ==> StoredOk(o, v))
    && (forall mn, s :: mn in o.current && s in o.current[mn] ==> CurrentOk(o, mn, s))
  }

  predicate StoredOk(o: Object, v: Vote) {
    && v.parent == o.hash
    && v.mn in o.current && v.signal in o.current[v.mn]
    && v.time == o.current[v.mn][v.signal].created
    && v.outcome <= o.current[v.mn][v.signal].outcome
  }

  predicate CurrentOk(o: Object, mn: OutPoint, s: int) {
    var i := InstanceOf(o, mn, s);
    (i.created == 0 && i.outcome == OUTCOME_NONE) || CurrentVote(o, mn, s) in o.file.index
  }

  lemma StoredAfter(o: Object, m: Message, w: Vote)
    requires Inv(o) && m.vote.parent == o.hash && w in ProcessVote(o, m).0.file.index
    ensures StoredOk(ProcessVote(o, m).0, w)
  {
    hide AddVote, FileInv, CurrentOk;
    AddVoteKeeps(o.file, m.vote);
    if w != m.vote {
      assert w in o.file.index;
      assert StoredOk(o, w);
    }
  }

  lemma CurrentAfter(o: Object, m: Message, mn: OutPoint, s: int)
    requires Inv(o) && m.vote.parent == o.hash
    requires var p := ProcessVote(o, m).0; mn in p.current && s in p.current[mn]
    ensures CurrentOk(ProcessVote(o, m).0, mn, s)
  {
    hide AddVote, FileInv, StoredOk;
    var v := m.vote;
    AddVoteKeeps(o.file, v);
    if mn in o.current && s in o.current[mn] { assert CurrentOk(o, mn, s); }
  }

  lemma ProcessVoteKeeps(o: Object, m: Message)
    requires Inv(o) && m.vote.parent == o.hash
    ensures Inv(ProcessVote(o, m).0)
  {
    hide Judge, AddVote, FileInv, CurrentOk, StoredOk;
    AddVoteKeeps(o.file, m.vote);
    forall w | w in ProcessVote(o, m).0.file.index ensures StoredOk(ProcessVote(o, m).0, w) { StoredAfter(o, m, w); }
    var p := ProcessVote(o, m).0;
    forall mn, s | mn in p.current && s in p.current[mn] ensures CurrentOk(p, mn, s) { CurrentAfter(o, m, mn, s); }
  }

  /** Masternodes that are still listed keep their records and their stored votes; all others lose both. */
  lemma ClearVotesKeeps(o: Object, listed: set<OutPoint>)
    requires Inv(o)
    ensures Inv(ClearVotes(o, listed)) && ClearVotes(o, listed).hash == o.hash
    ensures forall mn :: mn in ClearVotes(o, listed).current <==> mn in o.current && mn in listed
    ensures forall mn :: mn in ClearVotes(o, listed).current ==> ClearVotes(o, listed).current[mn] == o.current[mn]
    ensures forall v :: v in ClearVotes(o, listed).file.index <==> v in o.file.index && v.mn in listed
  {
    var p := ClearVotes(o, listed);
    RemoveKeeps(o.file, (v: Vote) => v.mn in o.current && v.mn !in listed);
    forall v | v in o.file.index ensures v.mn in o.current { assert StoredOk(o, v); }
    forall w | w in p.file.index ensures StoredOk(p, w) { assert StoredOk(o, w); }
    forall mn, s | mn in p.current && s in p.current[mn] ensures CurrentOk(p, mn, s) { assert CurrentOk(o, mn, s); }
  }
}
