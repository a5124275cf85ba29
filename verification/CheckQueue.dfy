/** The parallel check queue: a master adds checks, then joins the workers until all are done.
  *
  * `Shared` is what the mutex protects and `CheckQueue` is the object that holds it; each critical
  * section is one function and one method. `System` runs any number of threads over it in any order.
  */
module CheckQueue {
  /** A check, identified by what calling it returns. */
  datatype Check = Check(id: nat, verdict: bool)

  predicate HasFalse(cs: seq<Check>) {
    exists i :: 0 <= i < |cs| && !cs[i].verdict
  }

  datatype Shared = Shared(queue: seq<Check>, idle: int, total: int, allOk: bool, todo: int, quit: bool, batchSize: nat)

  /** How a critical section of `Loop` ends: the loop returns, waits, or takes a batch. */
  datatype Outcome = Returned(result: bool) | Waits | Took(batch: seq<Check>, ok: bool)

  function Max(a: int, b: int): int { if a < b then b else a }
  function Min(a: int, b: int): int { if a < b then a else b }

  function Reversed(cs: seq<Check>): seq<Check> {
    if cs == [] then [] else [cs[|cs| - 1]] + Reversed(cs[..|cs| - 1])
  }

  /** How many checks to take: at least one, at most a batch, and as many as leave every thread the same. */
  function BatchCount(sh: Shared): (n: nat)
    requires sh.queue != [] && sh.total >= 0 && sh.idle >= 0
    ensures 1 <= n <= |sh.queue| && n <= Max(1, sh.batchSize)
    ensures n > 1 ==> n * (sh.total + sh.idle + 1) <= |sh.queue|
    ensures n < sh.batchSize ==> (n + 1) * (sh.total + sh.idle + 1) > |sh.queue|
  {
    var share := |sh.queue| / (sh.total + sh.idle + 1);
    QuotientBound(|sh.queue|, sh.total + sh.idle + 1);
    ShareIs(|sh.queue|, sh.total + sh.idle + 1, Max(1, Min(sh.batchSize, share)), share);
    Max(1, Min(sh.batchSize, share))
  }

  lemma ShareIs(a: nat, d: int, n: nat, share: nat)
    requires d >= 1 && share == a / d
    ensures n <= share ==> n * d <= a
    ensures n >= share ==> (n + 1) * d > a
  {
    var left := a % d;
    assert a == share * d + left;
    if n <= share { assert (share - n) * d >= 0; }
    if n >= share { assert (n - share) * d >= 0; }
  }

  lemma QuotientBound(a: nat, d: int)
    requires d >= 1
    ensures 0 <= a / d <= a
  {}

  /** The clean-up of the previous round. */
  function Report(sh: Shared, now: nat, ok: bool): Shared {
    if now > 0 then sh.(allOk := sh.allOk && ok, todo := sh.todo - now) else sh.(total := sh.total + 1)
  }

  /** The body of the waiting loop, with the mutex held. */
  function Acquire(sh: Shared, master: bool): (Shared, Outcome)
    requires sh.total >= 0 && sh.idle >= 0
  {
    if sh.queue == [] then
      if (master || sh.quit) && sh.todo == 0 then
        (sh.(total := sh.total - 1, allOk := if master then true else sh.allOk), Returned(sh.allOk))
      else (sh.(idle := sh.idle + 1), Waits)
    else
      var rest := |sh.queue| - BatchCount(sh);
      (sh.(queue := sh.queue[..rest]), Took(Reversed(sh.queue[rest..]), sh.allOk))
  }

  function Push(sh: Shared, cs: seq<Check>): Shared {
    sh.(queue := sh.queue + cs, todo := sh.todo + |cs|)
  }

  /** A thread with the mutex works while there is work, waits while others do, and returns otherwise, workers only when
    * told to quit.
    */
  lemma OutcomeIff(sh: Shared, master: bool)
    requires sh.total >= 0 && sh.idle >= 0
    ensures var r := Acquire(sh, master).1;
            && (r.Took? <==> sh.queue != [])
            && (r.Returned? <==> sh.queue == [] && sh.todo == 0 && (master || sh.quit))
            && (r.Waits? <==> sh.queue == [] && !(sh.todo == 0 && (master || sh.quit)))
            && (r.Returned? ==> r.result == sh.allOk) && (r.Took? ==> r.ok == sh.allOk)
  {
    hide Reversed, BatchCount;
  }

  /** The queue object; its methods are the critical sections. */
  class CheckQueue {
    var queue: seq<Check>
    var idle: int
    var total: int
    var allOk: bool
    var todo: int
    var quit: bool
    const batchSize: nat

    ghost function Value(): Shared
      reads this
    {
      Shared(queue, idle, total, allOk, todo, quit, batchSize)
    }

    constructor (batchSize: nat)
      ensures Value() == Shared([], 0, 0, true, 0, false, batchSize)
    {
      queue, idle, total, allOk, todo, quit := [], 0, 0, true, 0, false;
      this.batchSize := batchSize;
    }

    method Add(cs: seq<Check>)
      modifies this
      ensures Value() == Push(old(Value()), cs)
    {
      for i := 0 to |cs|
        invariant Value() == old(Value()).(queue := old(queue) + cs[..i])
      {
        queue := queue + [cs[i]];
        assert cs[..i + 1] == cs[..i] + [cs[i]];
      }
      assert cs[..|cs|] == cs;
      todo := todo + |cs|;
    }

    /** Move checks one by one from the back of the queue. */
    method TakeBatch(n: nat) returns (batch: seq<Check>)
      requires n <= |queue|
      modifies `queue
      ensures queue == old(queue)[..|old(queue)| - n]
      ensures batch == Reversed(old(queue)[|old(queue)| - n..])
    {
      batch := [];
      for i := 0 to n
        invariant queue == old(queue)[..|old(queue)| - i]
        invariant batch + Reversed(old(queue)[|old(queue)| - n..|old(queue)| - i])
               == Reversed(old(queue)[|old(queue)| - n..])
      {
        ghost var left := old(queue)[|old(queue)| - n..|old(queue)| - i];
        assert left[..|left| - 1] == old(queue)[|old(queue)| - n..|old(queue)| - i - 1];
        batch := batch + [queue[|queue| - 1]];
        queue := queue[..|queue| - 1];
      }
    }

    method AcquireWork(master: bool) returns (r: Outcome)
      requires total >= 0 && idle >= 0
      modifies this
      ensures (Value(), r) == Acquire(old(Value()), master)
    {
      if queue == [] {
        if (master || quit) && todo == 0 {
          total := total - 1;
          r := Returned(allOk);
          if master {
            allOk := true;
          }
          return;
        }
        idle := idle + 1;
        r := Waits;
      } else {
        var n := BatchCount(Shared(queue, idle, total, allOk, todo, quit, batchSize));
        var batch := TakeBatch(n);
        r := Took(batch, allOk);
      }
    }

    /** A thread takes the mutex, having finished `now` checks with result `ok`. */
    method Enter(master: bool, now: nat, ok: bool) returns (r: Outcome)
      requires total >= 0 && idle >= 0
      modifies this
      ensures (Value(), r) == Acquire(Report(old(Value()), now, ok), master)
    {
      hide Acquire;
      if now > 0 {
        allOk := allOk && ok;
        todo := todo - now;
      } else {
        total := total + 1;
      }
      assert Value() == Report(old(Value()), now, ok);
      r := AcquireWork(master);
    }

    /** A waiting thread is woken with the mutex held. */
    method Wake(master: bool) returns (r: Outcome)
      requires total >= 0 && idle >= 1
      modifies this
      ensures (Value(), r) == Acquire(old(Value()).(idle := old(idle) - 1), master)
    {
      hide Acquire;
      idle := idle - 1;
      r := AcquireWork(master);
    }
  }

  // ---------------------------------------------------------------- all threads together

  /** Where a thread stands in `Loop`. */
  datatype Local =
    | Outside
    | Entering(now: nat, ok: bool)
    | Waiting(signalled: bool)
    | Working(batch: seq<Check>, next: nat, ok: bool)

  /** Thread 0 is the master. `added` is what it added since its last `Wait` returned;
      `results` pairs each finished `Wait` with the checks it answered for. */
  datatype System = System(sh: Shared, threads: seq<Local>, added: seq<Check>, results: seq<(seq<Check>, bool)>)

  datatype Event =
    | AddChecks(cs: seq<Check>, notified: nat)
    | Start(t: nat)
    | Lock(t: nat)
    | Wakeup(t: nat)
    | Spurious(t: nat)
    | Exec(t: nat)

  function Initial(threads: nat, batchSize: nat): System
    requires threads > 0
  {
    System(Shared([], 0, 0, true, 0, false, batchSize), seq(threads, _ => Outside), [], [])
  }

  predicate Enabled(s: System, e: Event)
    requires s.threads != []
  {
    match e
    case AddChecks(_, _) => s.threads[0].Outside?
    case Start(t) => t < |s.threads| && s.threads[t].Outside?
    case Lock(t) => t < |s.threads| && s.threads[t].Entering?
    case Wakeup(t) => t < |s.threads| && s.threads[t] == Waiting(true)
    case Spurious(t) => t < |s.threads| && s.threads[t] == Waiting(false)
    case Exec(t) => t < |s.threads| && s.threads[t].Working? && s.threads[t].next < |s.threads[t].batch|
  }

  function Signal(l: Local): Local {
    if l.Waiting? then Waiting(true) else l
  }

  /** `condWorker`: one waiter (or none) for a single check, everybody for more. */
  function NotifyWorkers(threads: seq<Local>, added: nat, notified: nat): seq<Local> {
    if added == 0 then threads
    else if added == 1 then
      if 0 < notified < |threads| then threads[notified := Signal(threads[notified])] else threads
    else seq(|threads|, i requires 0 <= i < |threads| => if i == 0 then threads[0] else Signal(threads[i]))
  }

  /** `condMaster`: a worker that finds nothing left to do wakes the master. */
  function NotifyMaster(threads: seq<Local>, t: nat, now: nat, todo: int): seq<Local>
    requires threads != []
  {
    if t != 0 && now > 0 && todo == 0 then threads[0 := Signal(threads[0])] else threads
  }

  /** Thread `t` leaves its critical section. */
  function Resume(s: System, t: nat, r: (Shared, Outcome)): System
    requires t < |s.threads|
  {
    match r.1
    case Returned(result) =>
      var u := s.(sh := r.0, threads := s.threads[t := Outside]);
      if t == 0 then u.(results := s.results + [(s.added, result)], added := []) else u
    case Waits => s.(sh := r.0, threads := s.threads[t := Waiting(false)])
    case Took(batch, ok) => s.(sh := r.0, threads := s.threads[t := Working(batch, 0, ok)])
  }

  function Step(s: System, e: Event): System
    requires Inv(s) && Enabled(s, e)
  {
    match e
    case AddChecks(cs, n) =>
      s.(sh := Push(s.sh, cs), added := s.added + cs, threads := NotifyWorkers(s.threads, |cs|, n))
    case Start(t) => s.(threads := s.threads[t := Entering(0, true)])
    case Lock(t) =>
      var l := s.threads[t];
      var sh := Report(s.sh, l.now, l.ok);
      Resume(s.(threads := NotifyMaster(s.threads, t, l.now, sh.todo)), t, Acquire(sh, t == 0))
    case Wakeup(t) =>
      SumBound(s.threads, Idle, t);
      Resume(s, t, Acquire(s.sh.(idle := s.sh.idle - 1), t == 0))
    case Spurious(t) =>
      SumBound(s.threads, Idle, t);
      Resume(s, t, Acquire(s.sh.(idle := s.sh.idle - 1), t == 0))
    case Exec(t) =>
      var Working(batch, next, ok) := s.threads[t];
      var now := ok && batch[next].verdict;
      s.(threads := s.threads[t := if next + 1 == |batch| then Entering(|batch|, now) else Working(batch, next + 1, now)])
  }

  // ---------------------------------------------------------------- sums over threads

  function InFlight(l: Local): nat {
    match l case Entering(now, _) => now case Working(batch, _, _) => |batch| case _ => 0
  }

  function Counted(l: Local): nat {
    if l.Outside? || (l.Entering? && l.now == 0) then 0 else 1
  }

  function Idle(l: Local): nat { if l.Waiting? then 1 else 0 }

  function Sum(ts: seq<Local>, w: Local -> nat): nat {
    if ts == [] then 0 else w(ts[0]) + Sum(ts[1..], w)
  }

  lemma {:induction false} SumUpdate(ts: seq<Local>, w: Local -> nat, i: nat, l: Local)
    requires i < |ts|
    ensures Sum(ts[i := l], w) == Sum(ts, w) - w(ts[i]) + w(l)
  {
    if i == 0 {
      assert ts[i := l][1..] == ts[1..];
    } else {
      assert ts[i := l][1..] == ts[1..][i - 1 := l];
      SumUpdate(ts[1..], w, i - 1, l);
    }
  }

  lemma {:induction false} SumSame(ts: seq<Local>, us: seq<Local>, w: Local -> nat)
    requires |ts| == |us| && forall i :: 0 <= i < |ts| ==> w(ts[i]) == w(us[i])
    ensures Sum(ts, w) == Sum(us, w)
  {
    if ts != [] {
      SumSame(ts[1..], us[1..], w);
    }
  }

  lemma {:induction false} SumBound(ts: seq<Local>, w: Local -> nat, i: nat)
    requires i < |ts|
    ensures w(ts[i]) <= Sum(ts, w)
  {
    if i > 0 {
      SumBound(ts[1..], w, i - 1);
    }
  }

  lemma {:induction false} SumPositive(ts: seq<Local>, w: Local -> nat) returns (i: nat)
    requires Sum(ts, w) > 0
    ensures i < |ts| && w(ts[i]) > 0
  {
    if w(ts[0]) > 0 {
      i := 0;
    } else {
      i := SumPositive(ts[1..], w);
      i := i + 1;
    }
  }

  // ---------------------------------------------------------------- the invariant

  /** A failure this thread knows of, or still has to meet, and has not reported. */
  predicate Pending(l: Local) {
    match l
    case Working(batch, next, ok) => next <= |batch| && (!ok || HasFalse(batch[next..]))
    case Entering(now, ok) => now > 0 && !ok
    case _ => false
  }

  predicate AnyPending(ts: seq<Local>) {
    exists t :: 0 <= t < |ts| && Pending(ts[t])
  }

  /** A failure is recorded, queued, or in some thread's hands. */
  predicate Trouble(sh: Shared, ts: seq<Local>) {
    !sh.allOk || HasFalse(sh.queue) || AnyPending(ts)
  }

  ghost predicate Inv(s: System) {
    && s.threads != []
    && (forall t :: 0 <= t < |s.threads| && s.threads[t].Working? ==> s.threads[t].next < |s.threads[t].batch|)
    && s.sh.todo == |s.sh.queue| + Sum(s.threads, InFlight)
    && s.sh.total == Sum(s.threads, Counted)
    && s.sh.idle == Sum(s.threads, Idle)
    && (Trouble(s.sh, s.threads) <==> HasFalse(s.added))
    && (s.threads[0] == Waiting(false) ==> s.sh.queue == [] && s.sh.todo > 0)
    && (forall i :: 0 <= i < |s.results| ==> (s.results[i].1 <==> !HasFalse(s.results[i].0)))
  }

  lemma HasFalseConcat(a: seq<Check>, b: seq<Check>)
    ensures HasFalse(a + b) <==> HasFalse(a) || HasFalse(b)
  {
    if i :| 0 <= i < |a| && !a[i].verdict {
      assert !(a + b)[i].verdict;
    }
    if i :| 0 <= i < |b| && !b[i].verdict {
      assert !(a + b)[|a| + i].verdict;
    }
  }

  lemma {:induction false} HasFalseReversed(cs: seq<Check>)
    ensures HasFalse(Reversed(cs)) <==> HasFalse(cs)
    ensures |Reversed(cs)| == |cs|
  {
    if cs != [] {
      var n := |cs| - 1;
      HasFalseReversed(cs[..n]);
      HasFalseConcat([cs[n]], Reversed(cs[..n]));
      HasFalseConcat(cs[..n], [cs[n]]);
      assert cs == cs[..n] + [cs[n]];
      assert HasFalse([cs[n]]) <==> !cs[n].verdict by { assert [cs[n]][0] == cs[n]; }
    }
  }

  /** Whether anything is pending apart from thread `t`. */
  predicate OtherPending(ts: seq<Local>, t: nat) {
    exists u :: 0 <= u < |ts| && u != t && Pending(ts[u])
  }

  lemma PendingUpdate(ts: seq<Local>, t: nat, l: Local)
    requires t < |ts|
    ensures AnyPending(ts) <==> Pending(ts[t]) || OtherPending(ts, t)
    ensures AnyPending(ts[t := l]) <==> Pending(l) || OtherPending(ts, t)
  {
    var us := ts[t := l];
    assert us[t] == l;
    if u :| 0 <= u < |ts| && u != t && Pending(ts[u]) {
      assert us[u] == ts[u];
    }
    if u :| 0 <= u < |us| && u != t && Pending(us[u]) {
      assert us[u] == ts[u];
    }
  }

  lemma NothingPending(ts: seq<Local>)
    requires Sum(ts, InFlight) == 0
    requires forall t :: 0 <= t < |ts| && ts[t].Working? ==> ts[t].next < |ts[t].batch|
    ensures !AnyPending(ts)
  {
    forall t | 0 <= t < |ts| ensures !Pending(ts[t]) {
      SumBound(ts, InFlight, t);
    }
  }

  /** Thread `t`, outside until now, becomes `l`. */
  lemma Place(ts: seq<Local>, t: nat, l: Local)
    requires t < |ts| && ts[t].Outside?
    ensures var us := ts[t := l];
            && Sum(us, InFlight) == Sum(ts, InFlight) + InFlight(l)
            && Sum(us, Counted) == Sum(ts, Counted) + Counted(l)
            && Sum(us, Idle) == Sum(ts, Idle) + Idle(l)
            && (AnyPending(us) <==> Pending(l) || AnyPending(ts))
  {
    SumUpdate(ts, InFlight, t, l);
    SumUpdate(ts, Counted, t, l);
    SumUpdate(ts, Idle, t, l);
    PendingUpdate(ts, t, l);
  }

  /** The invariant while thread `t` holds the mutex, not yet placed but counted in `total`. */
  ghost predicate Holding(s: System, t: nat) {
    && t < |s.threads| && s.threads[t].Outside?
    && Inv(s.(sh := s.sh.(total := s.sh.total - 1)))
  }

  lemma TakeKeeps(s: System, t: nat)
    requires Holding(s, t) && s.sh.queue != []
    ensures Inv(Resume(s, t, Acquire(s.sh, t == 0)))
  {
    var sh := s.sh;
    var Took(batch, ok) := Acquire(sh, t == 0).1;
    var rest := |sh.queue| - BatchCount(sh);
    assert sh.queue == sh.queue[..rest] + sh.queue[rest..];
    HasFalseConcat(sh.queue[..rest], sh.queue[rest..]);
    HasFalseReversed(sh.queue[rest..]);
    assert batch[0..] == batch;
    Place(s.threads, t, Working(batch, 0, ok));
  }

  /** When a thread returns nothing is in flight, so the verdict is exact. */
  lemma ReturnKeeps(s: System, t: nat)
    requires Holding(s, t) && s.sh.queue == [] && s.sh.todo == 0
    ensures s.sh.allOk <==> !HasFalse(s.added)
    ensures Inv(Resume(s, t, Acquire(s.sh, t == 0)))
  {
    NothingPending(s.threads);
    Place(s.threads, t, Outside);
    Place(s.threads, t, Waiting(false));
  }

  lemma WaitKeeps(s: System, t: nat)
    requires Holding(s, t) && s.sh.queue == [] && s.sh.todo != 0
    ensures Inv(Resume(s, t, Acquire(s.sh, t == 0)))
  {
    Place(s.threads, t, Waiting(false));
  }

  lemma ResumeKeeps(s: System, t: nat)
    requires Holding(s, t)
    ensures Inv(Resume(s, t, Acquire(s.sh, t == 0)))
  {
    if s.sh.queue != [] {
      TakeKeeps(s, t);
    } else if s.sh.todo == 0 {
      ReturnKeeps(s, t);
    } else {
      WaitKeeps(s, t);
    }
  }

  /** What `Resume` does to thread `t` does not depend on where it stood. */
  lemma ResumeAnywhere(s: System, t: nat, r: (Shared, Outcome))
    requires t < |s.threads|
    ensures Resume(s, t, r) == Resume(s.(threads := s.threads[t := Outside], sh := r.0), t, r)
  {
    var l := Resume(s, t, r).threads[t];
    assert s.threads[t := Outside][t := l] == s.threads[t := l];
  }

  lemma ExecKeeps(s: System, t: nat)
    requires Inv(s) && Enabled(s, Exec(t))
    ensures Inv(Step(s, Exec(t)))
  {
    var u := Step(s, Exec(t));
    var Working(batch, next, ok) := s.threads[t];
    var l := u.threads[t];
    SumUpdate(s.threads, InFlight, t, l);
    SumUpdate(s.threads, Counted, t, l);
    SumUpdate(s.threads, Idle, t, l);
    PendingUpdate(s.threads, t, l);
    assert batch[next..] == [batch[next]] + batch[next + 1..];
    HasFalseConcat([batch[next]], batch[next + 1..]);
    assert HasFalse([batch[next]]) <==> !batch[next].verdict by { assert [batch[next]][0] == batch[next]; }
  }

  /** Replacing thread `t` by one outside the loop. */
  lemma Leave(s: System, t: nat)
    requires t < |s.threads|
    ensures var ts := s.threads[t := Outside];
            && Sum(ts, InFlight) == Sum(s.threads, InFlight) - InFlight(s.threads[t])
            && Sum(ts, Counted) == Sum(s.threads, Counted) - Counted(s.threads[t])
            && Sum(ts, Idle) == Sum(s.threads, Idle) - Idle(s.threads[t])
            && (AnyPending(s.threads) <==> Pending(s.threads[t]) || AnyPending(ts))
  {
    SumUpdate(s.threads, InFlight, t, Outside);
    SumUpdate(s.threads, Counted, t, Outside);
    SumUpdate(s.threads, Idle, t, Outside);
    PendingUpdate(s.threads, t, Outside);
  }

  /** Signalling waiting threads changes no count. */
  lemma SignalKeeps(ts: seq<Local>, us: seq<Local>)
    requires |ts| == |us| && forall i :: 0 <= i < |ts| ==> us[i] == ts[i] || us[i] == Signal(ts[i])
    ensures Sum(us, InFlight) == Sum(ts, InFlight) && Sum(us, Counted) == Sum(ts, Counted) && Sum(us, Idle) == Sum(ts, Idle)
    ensures AnyPending(us) <==> AnyPending(ts)
  {
    SumSame(us, ts, InFlight);
    SumSame(us, ts, Counted);
    SumSame(us, ts, Idle);
    assert forall i :: 0 <= i < |ts| ==> Pending(us[i]) == Pending(ts[i]);
  }

  lemma LockKeeps(s: System, t: nat)
    requires Inv(s) && Enabled(s, Lock(t))
    ensures Inv(Step(s, Lock(t)))
  {
    var l := s.threads[t];
    var sh := Report(s.sh, l.now, l.ok);
    var v := s.(threads := NotifyMaster(s.threads, t, l.now, sh.todo));
    SignalKeeps(s.threads, v.threads);
    Leave(v, t);
    ReportKeeps(s, t, v);
    var u := v.(threads := v.threads[t := Outside], sh := sh);
    ResumeKeeps(u, t);
    ResumeAnywhere(v, t, Acquire(sh, t == 0));
    ResumeAnywhere(u, t, Acquire(sh, t == 0));
    assert u.threads[t := Outside] == u.threads;
  }

  lemma ReportKeeps(s: System, t: nat, v: System)
    requires Inv(s) && Enabled(s, Lock(t))
    requires v == s.(threads := NotifyMaster(s.threads, t, s.threads[t].now, Report(s.sh, s.threads[t].now, s.threads[t].ok).todo))
    requires Sum(v.threads, InFlight) == Sum(s.threads, InFlight) && Sum(v.threads, Counted) == Sum(s.threads, Counted)
    requires Sum(v.threads, Idle) == Sum(s.threads, Idle) && (AnyPending(v.threads) <==> AnyPending(s.threads))
    ensures Holding(v.(threads := v.threads[t := Outside], sh := Report(s.sh, s.threads[t].now, s.threads[t].ok)), t)
  {
    hide HasFalse, Sum, AnyPending;
    Leave(v, t);
  }

  lemma WakeKeeps(s: System, t: nat)
    requires Inv(s) && t < |s.threads| && s.threads[t].Waiting?
    ensures Sum(s.threads, Idle) > 0
    ensures Inv(Resume(s, t, Acquire(s.sh.(idle := s.sh.idle - 1), t == 0)))
  {
    SumBound(s.threads, Idle, t);
    var sh := s.sh.(idle := s.sh.idle - 1);
    var u := s.(threads := s.threads[t := Outside], sh := sh);
    Leave(s, t);
    ResumeKeeps(u, t);
    ResumeAnywhere(s, t, Acquire(sh, t == 0));
    ResumeAnywhere(u, t, Acquire(sh, t == 0));
    assert u.threads[t := Outside] == u.threads;
  }

  lemma AddChecksKeeps(s: System, cs: seq<Check>, n: nat)
    requires Inv(s) && Enabled(s, AddChecks(cs, n))
    ensures Inv(Step(s, AddChecks(cs, n)))
  {
    SignalKeeps(s.threads, NotifyWorkers(s.threads, |cs|, n));
    HasFalseConcat(s.sh.queue, cs);
    HasFalseConcat(s.added, cs);
  }

  lemma StartKeeps(s: System, t: nat)
    requires Inv(s) && Enabled(s, Start(t))
    ensures Inv(Step(s, Start(t)))
  {
    Leave(s.(threads := s.threads[t := Entering(0, true)]), t);
    Leave(s, t);
    assert s.threads[t := Entering(0, true)][t := Outside] == s.threads;
  }

  lemma StepKeeps(s: System, e: Event)
    requires Inv(s) && Enabled(s, e)
    ensures Inv(Step(s, e))
  {
    hide Inv, NotifyWorkers, NotifyMaster, Resume, Acquire, Report;
    match e
    case AddChecks(cs, n) => AddChecksKeeps(s, cs, n);
    case Start(t) => StartKeeps(s, t);
    case Lock(t) => LockKeeps(s, t);
    case Wakeup(t) => WakeKeeps(s, t);
    case Spurious(t) => WakeKeeps(s, t);
    case Exec(t) => ExecKeeps(s, t);
  }

  lemma {:induction false} SumZero(n: nat, w: Local -> nat)
    requires w(Outside) == 0
    ensures Sum(seq(n, _ => Outside), w) == 0
  {
    if n > 0 {
      SumZero(n - 1, w);
      assert seq(n, _ => Outside)[1..] == seq(n - 1, _ => Outside);
    }
  }

  lemma InitialInv(threads: nat, batchSize: nat)
    requires threads > 0
    ensures Inv(Initial(threads, batchSize))
  {
    SumZero(threads, InFlight);
    SumZero(threads, Counted);
    SumZero(threads, Idle);
  }

  // ---------------------------------------------------------------- runs

  /** Any schedule: events in any order, those not enabled being skipped. */
  ghost function Run(s: System, events: seq<Event>): (r: System)
    requires Inv(s)
    ensures Inv(r)
    decreases |events|
  {
    if events == [] then s
    else if Enabled(s, events[0]) then StepKeeps(s, events[0]); Run(Step(s, events[0]), events[1..])
    else Run(s, events[1..])
  }

  /** Adding checks wakes workers: every waiting one for two checks or more, a chosen one for a single check. */
  lemma AddWakes(s: System, cs: seq<Check>, n: nat, t: nat)
    requires Inv(s) && Enabled(s, AddChecks(cs, n)) && 0 < t < |s.threads| && s.threads[t].Waiting?
    ensures var u := Step(s, AddChecks(cs, n));
            && |u.threads| == |s.threads| && u.threads[0] == s.threads[0]
            && (|cs| > 1 || (|cs| == 1 && n == t) ==> u.threads[t] == Waiting(true) && Enabled(u, Wakeup(t)))
            && (|cs| == 0 || (|cs| == 1 && n != t) ==> u.threads[t] == s.threads[t])
  {
    hide HasFalse;
    AddChecksKeeps(s, cs, n);
  }

  /** Main theorem: under every interleaving each `Wait` returned true exactly when all its checks hold. */
  lemma WaitIsExact(threads: nat, batchSize: nat, events: seq<Event>, i: nat)
    requires threads > 0
    ensures Inv(Initial(threads, batchSize))
    ensures var s := Run(Initial(threads, batchSize), events);
            && s.sh.todo == |s.sh.queue| + Sum(s.threads, InFlight)
            && (i < |s.results| ==> (s.results[i].1 <==> forall c :: c in s.results[i].0 ==> c.verdict))
  {
    InitialInv(threads, batchSize);
    var s := Run(Initial(threads, batchSize), events);
    if i < |s.results| {
      var cs := s.results[i].0;
      assert HasFalse(cs) <==> exists c :: c in cs && !c.verdict by {
        if j :| 0 <= j < |cs| && !cs[j].verdict {
          assert cs[j] in cs;
        }
      }
    }
  }

  lemma ResumeReturns(s: System, t: nat, sh: Shared)
    requires t < |s.threads| && sh.total >= 0 && sh.idle >= 0
    requires |Resume(s, t, Acquire(sh, t == 0)).results| > |s.results|
    ensures var u := Resume(s, t, Acquire(sh, t == 0)); u.sh.todo == 0 && u.sh.queue == [] && u.sh.allOk
  {
    hide Reversed, BatchCount;
  }

  lemma StepReturns(s: System, e: Event)
    requires Inv(s) && Enabled(s, e) && |Step(s, e).results| > |s.results|
    ensures var u := Step(s, e); u.sh.todo == 0 && u.sh.queue == [] && u.sh.allOk && |u.threads| == |s.threads|
  {
    hide Acquire, HasFalse, AnyPending;
    match e {
      case Lock(t) =>
        var l := s.threads[t];
        var sh := Report(s.sh, l.now, l.ok);
        ResumeReturns(s.(threads := NotifyMaster(s.threads, t, l.now, sh.todo)), t, sh);
      case Wakeup(t) =>
        SumBound(s.threads, Idle, t);
        ResumeReturns(s, t, s.sh.(idle := s.sh.idle - 1));
      case Spurious(t) =>
        SumBound(s.threads, Idle, t);
        ResumeReturns(s, t, s.sh.(idle := s.sh.idle - 1));
      case _ =>
    }
  }

  /** At the moment a `Wait` returns, no thread holds a batch it has not reported. */
  lemma NothingInFlightAtReturn(s: System, e: Event, t: nat)
    requires Inv(s) && Enabled(s, e) && |Step(s, e).results| > |s.results| && t < |s.threads|
    ensures |Step(s, e).threads| == |s.threads|
    ensures Step(s, e).sh.todo == 0 && Step(s, e).sh.queue == [] && InFlight(Step(s, e).threads[t]) == 0
    ensures Step(s, e).sh.allOk
  {
    hide Step, InFlight, HasFalse, AnyPending;
    StepKeeps(s, e);
    StepReturns(s, e);
    SumBound(Step(s, e).threads, InFlight, t);
  }

  // ---------------------------------------------------------------- progress

  /** The steps threads take by themselves; starting, adding and spurious wake-ups come from outside. */
  predicate Internal(e: Event) { e.Lock? || e.Wakeup? || e.Exec? }

  function Weight(l: Local): nat {
    match l
    case Outside => 0
    case Entering(_, _) => 2
    case Waiting(signalled) => if signalled then 1 else 0
    case Working(batch, next, _) => if next <= |batch| then |batch| - next + 2 else 2
  }

  function Measure(s: System): nat {
    5 * |s.sh.queue| + Sum(s.threads, Weight)
  }

  /** While the master waits for the result some thread can move: no wake-up is ever lost. */
  lemma NoDeadlock(s: System) returns (e: Event)
    requires Inv(s) && !s.threads[0].Outside?
    ensures Internal(e) && Enabled(s, e)
  {
    var t := 0;
    if s.threads[0] == Waiting(false) {
      t := SumPositive(s.threads, InFlight);
    }
    e := if s.threads[t].Entering? then Lock(t) else if s.threads[t].Waiting? then Wakeup(t) else Exec(t);
  }

  lemma ResumeWeight(s: System, t: nat, sh: Shared)
    requires t < |s.threads| && sh.total >= 0 && sh.idle >= 0
    ensures var u := Resume(s, t, Acquire(sh, t == 0));
            Measure(u) <= 5 * |sh.queue| + Sum(s.threads, Weight) - Weight(s.threads[t])
  {
    var r := Acquire(sh, t == 0);
    var u := Resume(s, t, r);
    SumUpdate(s.threads, Weight, t, u.threads[t]);
    if r.1.Took? {
      HasFalseReversed(sh.queue[|sh.queue| - BatchCount(sh)..]);
    }
  }

  lemma LockProgress(s: System, t: nat)
    requires Inv(s) && Enabled(s, Lock(t))
    ensures Measure(Step(s, Lock(t))) < Measure(s)
  {
    hide HasFalse, Acquire, Resume;
    var l := s.threads[t];
    var sh := Report(s.sh, l.now, l.ok);
    var v := s.(threads := NotifyMaster(s.threads, t, l.now, sh.todo));
    SumUpdate(s.threads, Weight, 0, v.threads[0]);
    assert s.threads[0 := s.threads[0]] == s.threads;
    ResumeWeight(v, t, sh);
  }

  /** Every such step uses up some of a finite measure, so `Wait` returns after at most `Measure` of them. */
  lemma Progress(s: System, e: Event)
    requires Inv(s) && Internal(e) && Enabled(s, e)
    ensures Measure(Step(s, e)) < Measure(s)
  {
    match e
    case Lock(t) => LockProgress(s, t);
    case Wakeup(t) =>
      SumBound(s.threads, Idle, t);
      ResumeWeight(s, t, s.sh.(idle := s.sh.idle - 1));
    case Exec(t) =>
      SumUpdate(s.threads, Weight, t, Step(s, e).threads[t]);
  }

  /** No schedule of enabled internal steps is longer than the measure: with `NoDeadlock`, `Wait` returns. */
  lemma {:induction false} InternalStepsBounded(s: System, events: seq<Event>)
    requires Inv(s)
    requires forall i :: 0 <= i < |events| ==> Internal(events[i])
    requires forall i :: 0 <= i < |events| ==> Enabled(Run(s, events[..i]), events[i])
    ensures |events| + Measure(Run(s, events)) <= Measure(s)
    decreases |events|
  {
    if events != [] {
      assert events[..0] == [];
      assert Enabled(s, events[0]);
      var u := Step(s, events[0]);
      Progress(s, events[0]);
      StepKeeps(s, events[0]);
      var rest := events[1..];
      forall i | 0 <= i < |rest| ensures Enabled(Run(u, rest[..i]), rest[i]) {
        assert events[..i + 1][0] == events[0] && events[..i + 1][1..] == rest[..i];
        assert Enabled(Run(s, events[..i + 1]), events[i + 1]);
      }
      InternalStepsBounded(u, rest);
    }
  }
}
