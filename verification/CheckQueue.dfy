/**
The parallel check queue of src/checkqueue.h as a state machine.

Every critical section of CCheckQueue::Loop and CCheckQueue::Add, and every execution of one check,
is one atomic step; steps of the master (thread 0) and of any number of workers interleave freely.
A thread asleep on its condition variable may wake up whether or not it was notified.
*/
module CheckQueue {
  import opened Basics

  type Check = nat

  /** Where a thread is inside CCheckQueue::Loop. */
  datatype Thread =
    | Outside
    | Entering                                              // before its first critical section
    | Asleep(notified: bool)                                // in cond.wait
    | Working(rest: seq<Check>, nNow: nat, fOk: bool)       // off the lock, with a batch of nNow checks

  datatype State = State(
    queue: seq<Check>, nIdle: int, nTotal: int, fAllOk: bool, nTodo: int, fQuit: bool, nBatchSize: nat,
    threads: seq<Thread>,
    // What happened since the last Wait returned.  The code does not keep these.
    added: seq<Check>, passed: seq<Check>, failed: seq<Check>, skipped: seq<Check>)

  const MASTER := 0

  datatype Action =
    | Enter(i: nat)                                         // Thread() or Wait() is called
    | Lock(i: nat)                                          // one critical section of Loop
    | Execute(i: nat, result: bool)                         // one check of the batch: check() gives result
    | Add(checks: seq<Check>, woken: Option<nat>)           // the master adds a batch

  // ---------------------------------------------------------------------------------------------
  // The steps

  /** How many checks a thread takes.  The divisor is positive in every reachable state. */
  function BatchSize(s: State): (n: int)
    requires s.queue != []
    ensures 1 <= n <= |s.queue|
  {
    var d := s.nTotal + s.nIdle + 1;
    var share := if d > 0 then |s.queue| / d else 0;
    assert share <= |s.queue| by { if d > 0 { DivAtMost(|s.queue|, d); } }
    Max(1, Min(s.nBatchSize, share))
  }

  /** A thread takes its even share with the others, but never more than a batch and never nothing: the largest such. */
  lemma BatchShare(s: State)
    requires s.queue != [] && s.nTotal + s.nIdle >= 0
    ensures var n, sharers := BatchSize(s), s.nTotal + s.nIdle + 1;
      && (n == 1 || (n <= s.nBatchSize && n * sharers <= |s.queue|))
      && (n >= s.nBatchSize || (n + 1) * sharers > |s.queue|)
  {
    var d := s.nTotal + s.nIdle + 1;
    var share := |s.queue| / d;
    assert share * d <= |s.queue| < (share + 1) * d;
    if s.nBatchSize < share {
      TimesMore(s.nBatchSize, share, d);
    } else if share == 0 {
      TimesMore(1, 2, d);
    }
  }

  lemma TimesMore(a: nat, b: nat, d: nat)
    requires a <= b
    ensures a * d <= b * d
  {
  }

  lemma DivAtMost(a: nat, d: nat)
    requires d >= 1
    ensures a / d <= a
  {
  }

  /** The last k elements, taken off the back one by one. */
  function FromBack<T>(q: seq<T>, k: nat): (r: seq<T>)
    requires k <= |q|
    ensures |r| == k
  {
    if k == 0 then [] else [q[|q|-1]] + FromBack(q[..|q|-1], k-1)
  }

  /** The body of the inner while loop and what follows it in the critical section. */
  function Poll(s: State, i: nat): (State, Option<bool>)
    requires i < |s.threads|
  {
    if s.queue == [] then
      if (i == MASTER || s.fQuit) && s.nTodo == 0 then
        var t := s.(nTotal := s.nTotal - 1, threads := s.threads[i := Outside]);
        if i == MASTER then
          (t.(fAllOk := true, added := [], passed := [], failed := [], skipped := []),
           Some(s.fAllOk))
        else (t, None)
      else
        (s.(nIdle := s.nIdle + 1, threads := s.threads[i := Asleep(false)]), None)
    else
      var nNow := BatchSize(s);
      (s.(queue := s.queue[..|s.queue| - nNow],
          threads := s.threads[i := Working(FromBack(s.queue, nNow), nNow, s.fAllOk)]), None)
  }

  function NotifyMaster(ts: seq<Thread>): (r: seq<Thread>)
    ensures |r| == |ts|
  {
    if |ts| > MASTER && ts[MASTER].Asleep? then ts[MASTER := Asleep(true)] else ts
  }

  /** What a thread does on the lock before it polls the queue. */
  function Arrive(s: State, i: nat): (t: State)
    requires i < |s.threads|
    ensures |t.threads| == |s.threads|
  {
    match s.threads[i]
    case Outside => s
    case Entering => s.(nTotal := s.nTotal + 1)
    case Asleep(_) => s.(nIdle := s.nIdle - 1)
    case Working(_, nNow, fOk) =>
      var t := s.(fAllOk := s.fAllOk && fOk, nTodo := s.nTodo - nNow);
      if t.nTodo == 0 && i != MASTER then t.(threads := NotifyMaster(t.threads)) else t
  }

  /** One turn of the batch loop: check() is called only while fOk still holds. */
  function ExecuteNext(t: Thread, result: bool): Thread
    requires t.Working? && t.rest != []
  {
    t.(rest := t.rest[1..], fOk := if t.fOk then result else false)
  }

  function ExecuteOne(s: State, i: nat, result: bool): State
    requires i < |s.threads| && s.threads[i].Working? && s.threads[i].rest != []
  {
    var t := s.threads[i];
    var u := s.(threads := s.threads[i := ExecuteNext(t, result)]);
    if !t.fOk then u.(skipped := s.skipped + [t.rest[0]])
    else if result then u.(passed := s.passed + [t.rest[0]])
    else u.(failed := s.failed + [t.rest[0]])
  }

  predicate Napping(t: Thread) {
    t == Asleep(false)
  }

  function NotifyAll(ts: seq<Thread>): (r: seq<Thread>)
    ensures |r| == |ts|
    ensures forall j :: 0 <= j < |ts| ==> r[j] == if j != MASTER && ts[j].Asleep? then Asleep(true) else ts[j]
  {
    seq(|ts|, j requires 0 <= j < |ts| => if j != MASTER && ts[j].Asleep? then Asleep(true) else ts[j])
  }

  function AddChecks(s: State, checks: seq<Check>, woken: Option<nat>): State
    requires woken.Some? ==> woken.value < |s.threads|
  {
    var t := s.(queue := s.queue + checks, nTodo := s.nTodo + |checks|, added := s.added + checks);
    if |checks| == 1 then
      if woken.Some? then t.(threads := t.threads[woken.value := Asleep(true)]) else t
    else if |checks| > 1 then t.(threads := NotifyAll(t.threads))
    else t
  }

  /** When a step may happen. */
  ghost predicate Enabled(s: State, a: Action) {
    match a
    case Enter(i) => i < |s.threads| && s.threads[i].Outside?
    case Lock(i) => i < |s.threads| && !s.threads[i].Outside? && (s.threads[i].Working? ==> s.threads[i].rest == [])
    case Execute(i, _) => i < |s.threads| && s.threads[i].Working? && s.threads[i].rest != []
    case Add(checks, woken) =>
      && MASTER < |s.threads| && s.threads[MASTER].Outside?
      // notify_one wakes one waiting worker if there is one
      && (woken.Some? ==> MASTER < woken.value < |s.threads| && Napping(s.threads[woken.value]))
      && (woken.None? ==> forall j :: MASTER < j < |s.threads| ==> !Napping(s.threads[j]))
  }

  /** The state after a step, and what Wait returned if the step made it return. */
  ghost function Step(s: State, a: Action): (State, Option<bool>)
    requires Enabled(s, a)
  {
    match a
    case Enter(i) => (s.(threads := s.threads[i := Entering]), None)
    case Lock(i) => Poll(Arrive(s, i), i)
    case Execute(i, result) => (ExecuteOne(s, i, result), None)
    case Add(checks, woken) => (AddChecks(s, checks, woken), None)
  }

  // ---------------------------------------------------------------------------------------------
  // Sums over the threads

  function SumBy(ts: seq<Thread>, f: Thread -> nat): nat {
    if ts == [] then 0 else f(ts[0]) + SumBy(ts[1..], f)
  }

  /** How often a check occurs in a list. */
  function Times(q: seq<Check>, c: Check): nat {
    if q == [] then 0 else Times(q[..|q|-1], c) + (if q[|q|-1] == c then 1 else 0)
  }

  /** How often a check is still to be run by some thread. */
  function Held(c: Check): Thread -> nat {
    (t: Thread) => if t.Working? then Times(t.rest, c) else 0
  }

  function InFlight(t: Thread): nat { if t.Working? then t.nNow else 0 }
  function Sleeps(t: Thread): nat { if t.Asleep? then 1 else 0 }
  function InLoop(t: Thread): nat { if t.Asleep? || t.Working? then 1 else 0 }

  lemma {:induction false} SumSplit(ts: seq<Thread>, f: Thread -> nat, i: nat)
    requires i < |ts| && f(Outside) == 0
    ensures SumBy(ts, f) == f(ts[i]) + SumBy(ts[i := Outside], f)
  {
    if i == 0 {
      assert ts[0 := Outside][1..] == ts[1..];
    } else {
      assert ts[i := Outside][1..] == ts[1..][i-1 := Outside];
      SumSplit(ts[1..], f, i-1);
    }
  }

  lemma SumReplace(ts: seq<Thread>, f: Thread -> nat, i: nat, t: Thread)
    requires i < |ts| && f(Outside) == 0
    ensures SumBy(ts[i := t], f) == SumBy(ts, f) - f(ts[i]) + f(t)
  {
    SumSplit(ts, f, i);
    SumSplit(ts[i := t], f, i);
    assert ts[i := t][i := Outside] == ts[i := Outside];
  }

  lemma {:induction false} TimesConcat(p: seq<Check>, q: seq<Check>, c: Check)
    ensures Times(p + q, c) == Times(p, c) + Times(q, c)
  {
    if q == [] {
      assert p + q == p;
    } else {
      TimesConcat(p, q[..|q|-1], c);
      assert (p + q)[..|p + q|-1] == p + q[..|q|-1];
    }
  }

  /** Every sum, split into one thread's share and the others'. */
  lemma Split(ts: seq<Thread>, i: nat)
    requires i < |ts|
    ensures SumBy(ts, InFlight) == InFlight(ts[i]) + SumBy(ts[i := Outside], InFlight)
    ensures SumBy(ts, Sleeps) == Sleeps(ts[i]) + SumBy(ts[i := Outside], Sleeps)
    ensures SumBy(ts, InLoop) == InLoop(ts[i]) + SumBy(ts[i := Outside], InLoop)
  {
    SumSplit(ts, InFlight, i);
    SumSplit(ts, Sleeps, i);
    SumSplit(ts, InLoop, i);
  }

  /** Waking a sleeper moves no work and no count. */
  lemma {:induction false} SameSums(ts: seq<Thread>, us: seq<Thread>)
    requires |ts| == |us|
    requires forall j :: 0 <= j < |ts| ==> us[j] == ts[j] || (ts[j].Asleep? && us[j].Asleep?)
    ensures forall c :: SumBy(us, Held(c)) == SumBy(ts, Held(c))
    ensures SumBy(us, InFlight) == SumBy(ts, InFlight)
    ensures SumBy(us, Sleeps) == SumBy(ts, Sleeps)
    ensures SumBy(us, InLoop) == SumBy(ts, InLoop)
  {
    if ts != [] { SameSums(ts[1..], us[1..]); }
  }

  lemma {:induction false} NoneInFlight(ts: seq<Thread>, i: nat)
    requires SumBy(ts, InFlight) == 0 && i < |ts|
    ensures InFlight(ts[i]) == 0
  {
    if i > 0 { NoneInFlight(ts[1..], i-1); }
  }

  lemma {:induction false} SomeInFlight(ts: seq<Thread>) returns (i: nat)
    requires SumBy(ts, InFlight) > 0
    ensures i < |ts| && ts[i].Working?
  {
    if InFlight(ts[0]) > 0 {
      i := 0;
    } else {
      i := SomeInFlight(ts[1..]);
      i := i + 1;
    }
  }

  lemma {:induction false} NoneHeld(ts: seq<Thread>, c: Check)
    requires forall j :: 0 <= j < |ts| ==> !ts[j].Working?
    ensures SumBy(ts, Held(c)) == 0
  {
    if ts != [] {
      assert forall j :: 0 <= j < |ts[1..]| ==> ts[1..][j] == ts[j+1];
      NoneHeld(ts[1..], c);
    }
  }

  lemma {:induction false} FromBackSplits(q: seq<Check>, k: nat, c: Check)
    requires k <= |q|
    ensures Times(q, c) == Times(q[..|q|-k], c) + Times(FromBack(q, k), c)
  {
    if k == 0 {
      assert q[..|q|] == q;
    } else {
      var p := q[..|q|-1];
      FromBackSplits(p, k-1, c);
      assert p[..|p|-(k-1)] == q[..|q|-k];
      TimesConcat([q[|q|-1]], FromBack(p, k-1), c);
      assert [q[|q|-1]][..0] == [];
    }
  }

  /** The same checks, each as often. */
  ghost predicate SameChecks(p: seq<Check>, q: seq<Check>) {
    forall c :: Times(p, c) == Times(q, c)
  }

  // ---------------------------------------------------------------------------------------------
  // The invariant

  /** nTodo counts what is queued and what threads hold; nIdle and nTotal count threads. */
  ghost predicate Counted(s: State) {
    && s.nTodo == |s.queue| + SumBy(s.threads, InFlight)
    && s.nIdle == SumBy(s.threads, Sleeps)
    && s.nTotal == SumBy(s.threads, InLoop)
  }

  ghost predicate ConservedAt(s: State, c: Check) {
    Times(s.added, c) ==
    Times(s.queue, c) + SumBy(s.threads, Held(c)) + Times(s.passed, c) + Times(s.failed, c) + Times(s.skipped, c)
  }

  /** No check is lost or duplicated. */
  ghost predicate Conserved(s: State) {
    forall c :: ConservedAt(s, c)
  }

  ghost predicate AllGood(s: State) {
    s.fAllOk && forall j :: 0 <= j < |s.threads| && s.threads[j].Working? ==> s.threads[j].fOk
  }

  /** The shared flag and the workers' own flags together say whether some check failed. */
  ghost predicate Judged(s: State) {
    && (AllGood(s) <==> s.failed == [])
    && (s.skipped != [] ==> s.failed != [])
  }

  ghost predicate Batched(s: State) {
    forall j :: 0 <= j < |s.threads| && s.threads[j].Working? ==>
      1 <= s.threads[j].nNow && |s.threads[j].rest| <= s.threads[j].nNow
  }

  /** A thread that will come back to the lock by itself. */
  predicate Active(t: Thread) {
    t.Entering? || t.Working? || t == Asleep(true)
  }

  /** No wake-up is lost, neither the master's nor the workers'. */
  ghost predicate Awake(s: State) {
    && MASTER < |s.threads|
    && (s.threads[MASTER].Asleep? ==> s.queue == [])
    && (Napping(s.threads[MASTER]) ==> s.nTodo > 0)
    && (s.queue != [] && (exists j :: 0 <= j < |s.threads| && Napping(s.threads[j])) ==>
          exists j :: 0 <= j < |s.threads| && Active(s.threads[j]))
  }

  ghost predicate Inv(s: State) {
    Counted(s) && Conserved(s) && Judged(s) && Batched(s) && Awake(s)
  }

  ghost predicate Init(s: State) {
    && s.queue == [] && s.nIdle == 0 && s.nTotal == 0 && s.fAllOk && s.nTodo == 0 && !s.fQuit
    && |s.threads| > MASTER && (forall j :: 0 <= j < |s.threads| ==> s.threads[j].Outside?)
    && s.added == s.passed == s.failed == s.skipped == []
  }

  lemma {:induction false} NothingYet(ts: seq<Thread>)
    requires forall j :: 0 <= j < |ts| ==> ts[j].Outside?
    ensures SumBy(ts, InFlight) == 0 && SumBy(ts, Sleeps) == 0 && SumBy(ts, InLoop) == 0
  {
    if ts != [] {
      assert forall j :: 0 <= j < |ts[1..]| ==> ts[1..][j] == ts[j+1];
      NothingYet(ts[1..]);
    }
  }

  lemma InitInv(s: State)
    requires Init(s)
    ensures Inv(s)
  {
    NothingYet(s.threads);
    forall c ensures ConservedAt(s, c) { NoneHeld(s.threads, c); }
  }

  // ---------------------------------------------------------------------------------------------
  // Every step keeps the invariant

  lemma EnterInv(s: State, i: nat)
    requires Inv(s) && Enabled(s, Enter(i))
    ensures Inv(Step(s, Enter(i)).0)
  {
    var t := Step(s, Enter(i)).0;
    assert s.threads[i := Outside] == t.threads[i := Outside];
    Split(s.threads, i);
    Split(t.threads, i);
    forall c ensures ConservedAt(t, c) {
      assert ConservedAt(s, c);
      SumSplit(s.threads, Held(c), i);
      SumSplit(t.threads, Held(c), i);
    }
    assert Active(t.threads[i]);
    JudgedBy(s, t);
  }

  /** Judged depends on the flags only. */
  lemma JudgedBy(s: State, t: State)
    requires Judged(s) && |s.threads| == |t.threads| && s.fAllOk == t.fAllOk
    requires s.failed == t.failed && s.skipped == t.skipped
    requires forall j :: 0 <= j < |s.threads| ==>
      s.threads[j] == t.threads[j] || (!s.threads[j].Working? && !t.threads[j].Working?)
    ensures Judged(t)
  {
    assert AllGood(s) <==> AllGood(t);
  }

  lemma ExecuteInv(s: State, i: nat, result: bool)
    requires Inv(s) && Enabled(s, Execute(i, result))
    ensures Inv(Step(s, Execute(i, result)).0)
  {
    var t := Step(s, Execute(i, result)).0;
    ExecuteCounted(s.threads, i, result);
    forall c ensures ConservedAt(t, c) {
      assert ConservedAt(s, c);
      ExecuteConserved(s, i, result, c);
    }
    ExecuteJudged(s, i, result);
    ExecuteBatched(s, i, result);
  }

  lemma ExecuteBatched(s: State, i: nat, result: bool)
    requires Batched(s) && Awake(s)
    requires i < |s.threads| && s.threads[i].Working? && s.threads[i].rest != []
    ensures Batched(ExecuteOne(s, i, result)) && Awake(ExecuteOne(s, i, result))
  {
    var t := ExecuteOne(s, i, result);
    assert Active(t.threads[i]);
  }

  lemma ExecuteCounted(ts: seq<Thread>, i: nat, result: bool)
    requires i < |ts| && ts[i].Working? && ts[i].rest != []
    ensures var us := ts[i := ExecuteNext(ts[i], result)];
      && SumBy(us, InFlight) == SumBy(ts, InFlight)
      && SumBy(us, Sleeps) == SumBy(ts, Sleeps)
      && SumBy(us, InLoop) == SumBy(ts, InLoop)
  {
    var now := ExecuteNext(ts[i], result);
    SumReplace(ts, InFlight, i, now);
    SumReplace(ts, Sleeps, i, now);
    SumReplace(ts, InLoop, i, now);
  }

  lemma ExecuteHeld(ts: seq<Thread>, i: nat, result: bool, c: Check)
    requires i < |ts| && ts[i].Working? && ts[i].rest != []
    ensures var us := ts[i := ExecuteNext(ts[i], result)];
      SumBy(us, Held(c)) + Times([ts[i].rest[0]], c) == SumBy(ts, Held(c))
  {
    var x, now := ts[i].rest[0], ExecuteNext(ts[i], result);
    SumReplace(ts, Held(c), i, now);
    assert ts[i].rest == [x] + now.rest;
    TimesConcat([x], now.rest, c);
  }

  lemma ExecuteConserved(s: State, i: nat, result: bool, c: Check)
    requires ConservedAt(s, c)
    requires i < |s.threads| && s.threads[i].Working? && s.threads[i].rest != []
    ensures ConservedAt(ExecuteOne(s, i, result), c)
  {
    ExecuteHeld(s.threads, i, result, c);
    var x := s.threads[i].rest[0];
    TimesConcat(s.skipped, [x], c);
    TimesConcat(s.passed, [x], c);
    TimesConcat(s.failed, [x], c);
  }

  lemma ExecuteJudged(s: State, i: nat, result: bool)
    requires Judged(s) && Enabled(s, Execute(i, result))
    ensures Judged(ExecuteOne(s, i, result))
  {
    var t := ExecuteOne(s, i, result);
    assert t.threads[i].Working?;
    assert forall j :: 0 <= j < |s.threads| && j != i ==> t.threads[j] == s.threads[j];
    if s.threads[i].fOk {
      if result {
        assert AllGood(t) <==> AllGood(s);
      } else {
        assert !AllGood(t);
      }
    } else {
      assert !AllGood(s) && !AllGood(t);
    }
  }

  lemma AddInv(s: State, checks: seq<Check>, woken: Option<nat>)
    requires Inv(s) && Enabled(s, Add(checks, woken))
    ensures Inv(Step(s, Add(checks, woken)).0)
  {
    var t := Step(s, Add(checks, woken)).0;
    SameSums(s.threads, t.threads);
    JudgedBy(s, t);
    forall c ensures ConservedAt(t, c) { AddConserved(s, checks, woken, c); }
    AddAwake(s, checks, woken);
  }

  lemma AddConserved(s: State, checks: seq<Check>, woken: Option<nat>, c: Check)
    requires Conserved(s) && Enabled(s, Add(checks, woken))
    requires SumBy(AddChecks(s, checks, woken).threads, Held(c)) == SumBy(s.threads, Held(c))
    ensures ConservedAt(AddChecks(s, checks, woken), c)
  {
    assert ConservedAt(s, c);
    TimesConcat(s.queue, checks, c);
    TimesConcat(s.added, checks, c);
  }

  lemma AddAwake(s: State, checks: seq<Check>, woken: Option<nat>)
    requires Awake(s) && Counted(s) && Enabled(s, Add(checks, woken))
    ensures Awake(AddChecks(s, checks, woken))
  {
    var t := AddChecks(s, checks, woken);
    if j :| t.queue != [] && 0 <= j < |t.threads| && Napping(t.threads[j]) && |checks| <= 1 {
      if |checks| == 0 {
        assert t.queue == s.queue && Napping(s.threads[j]);
      } else {
        assert j != MASTER && woken.Some?;
        assert Active(t.threads[woken.value]);
      }
    }
  }

  /** A thread at the lock, its batch handed in: it holds nothing, and is counted nowhere but in nTotal. */
  ghost predicate AtLock(s: State, i: nat) {
    && MASTER < |s.threads| && i < |s.threads|
    && var ts := s.threads[i := Outside];
    && s.nTodo == |s.queue| + SumBy(ts, InFlight)
    && s.nIdle == SumBy(ts, Sleeps)
    && s.nTotal == 1 + SumBy(ts, InLoop)
    && Conserved(s.(threads := ts))
    && Judged(s.(threads := ts))
    && Batched(s.(threads := ts))
    && (i != MASTER ==> LockAwake(s))
  }

  ghost predicate LockAwake(s: State) {
    && MASTER < |s.threads|
    && (s.threads[MASTER].Asleep? ==> s.queue == [])
    && (Napping(s.threads[MASTER]) ==> s.nTodo > 0)
  }

  lemma ArriveAtLock(s: State, i: nat)
    requires Inv(s) && Enabled(s, Lock(i))
    ensures AtLock(Arrive(s, i), i)
  {
    ArriveSums(s, i);
    ArriveConserved(s, i);
    ArriveJudged(s, i);
    ArriveBatched(s, i);
    ArriveAwake(s, i);
  }

  lemma ArriveConserved(s: State, i: nat)
    requires Conserved(s) && Enabled(s, Lock(i))
    ensures Conserved(HandedIn(s, i))
  {
    hide SumBy, Times, ConservedAt;
    forall c ensures ConservedAt(HandedIn(s, i), c) {
      assert ConservedAt(s, c);
      ArriveHeld(s, i, c);
      SameCounts(s, HandedIn(s, i), c);
    }
  }

  lemma SameCounts(s: State, t: State, c: Check)
    requires ConservedAt(s, c) && SumBy(s.threads, Held(c)) == SumBy(t.threads, Held(c))
    requires s.queue == t.queue && s.added == t.added
    requires s.passed == t.passed && s.failed == t.failed && s.skipped == t.skipped
    ensures ConservedAt(t, c)
  {
  }

  lemma ArriveBatched(s: State, i: nat)
    requires Batched(s) && Enabled(s, Lock(i))
    ensures Batched(HandedIn(s, i))
  {
    var b := HandedIn(s, i);
    forall j | 0 <= j < |b.threads| && b.threads[j].Working? ensures b.threads[j] == s.threads[j] {}
  }

  lemma ArriveAwake(s: State, i: nat)
    requires Awake(s) && Counted(s) && Enabled(s, Lock(i))
    ensures i != MASTER ==> LockAwake(Arrive(s, i))
  {
    Split(s.threads, i);
  }

  function HandedIn(s: State, i: nat): State
    requires i < |s.threads|
  {
    var a := Arrive(s, i);
    a.(threads := a.threads[i := Outside])
  }

  lemma ArriveSums(s: State, i: nat)
    requires Enabled(s, Lock(i))
    ensures var ts, us := s.threads, HandedIn(s, i).threads;
      && SumBy(ts, InFlight) == InFlight(ts[i]) + SumBy(us, InFlight)
      && SumBy(ts, Sleeps) == Sleeps(ts[i]) + SumBy(us, Sleeps)
      && SumBy(ts, InLoop) == InLoop(ts[i]) + SumBy(us, InLoop)
  {
    Split(s.threads, i);
    SameSums(s.threads[i := Outside], HandedIn(s, i).threads);
  }

  lemma ArriveHeld(s: State, i: nat, c: Check)
    requires Enabled(s, Lock(i))
    ensures SumBy(s.threads, Held(c)) == SumBy(HandedIn(s, i).threads, Held(c))
  {
    SumSplit(s.threads, Held(c), i);
    SameSums(s.threads[i := Outside], HandedIn(s, i).threads);
  }

  lemma ArriveJudged(s: State, i: nat)
    requires Judged(s) && Enabled(s, Lock(i))
    ensures Judged(HandedIn(s, i))
  {
    var b := HandedIn(s, i);
    forall j | 0 <= j < |s.threads| && j != i
      ensures b.threads[j] == s.threads[j] || (b.threads[j].Asleep? && s.threads[j].Asleep?)
    {
    }
    assert b.threads[i] == Outside;
    if AllGood(s) {
      assert AllGood(b);
    } else if s.fAllOk {
      var j :| 0 <= j < |s.threads| && s.threads[j].Working? && !s.threads[j].fOk;
      assert !AllGood(b) by {
        if j != i { assert b.threads[j] == s.threads[j]; }
      }
    }
  }

  lemma LockInv(s: State, i: nat)
    requires Inv(s) && Enabled(s, Lock(i))
    ensures Inv(Step(s, Lock(i)).0)
    ensures Step(s, Lock(i)).1.Some? ==> i == MASTER && (Step(s, Lock(i)).1.value <==> SameChecks(s.added, s.passed))
  {
    ArriveAtLock(s, i);
    var a := Arrive(s, i);
    assert a.added == s.added && a.passed == s.passed;
    if a.queue == [] {
      if (i == MASTER || a.fQuit) && a.nTodo == 0 { PollLeaves(a, i); } else { PollSleeps(a, i); }
    } else {
      PollTakes(a, i);
    }
  }

  lemma PollSleeps(a: State, i: nat)
    requires AtLock(a, i) && a.queue == [] && !((i == MASTER || a.fQuit) && a.nTodo == 0)
    ensures Inv(Poll(a, i).0) && Poll(a, i).1 == None
  {
    var ts := a.threads[i := Outside];
    var t := a.(nIdle := a.nIdle + 1, threads := a.threads[i := Asleep(false)]);
    assert Poll(a, i) == (t, None);
    assert t.threads[i := Outside] == ts;
    Split(t.threads, i);
    forall c ensures ConservedAt(t, c) {
      assert ConservedAt(a.(threads := ts), c);
      SumSplit(t.threads, Held(c), i);
    }
    JudgedBy(a.(threads := ts), t);
  }

  lemma PollTakes(a: State, i: nat)
    requires AtLock(a, i) && a.queue != []
    ensures Inv(Poll(a, i).0) && Poll(a, i).1 == None
  {
    var b := a.(threads := a.threads[i := Outside]);
    var nNow := BatchSize(a);
    var w := Working(FromBack(a.queue, nNow), nNow, a.fAllOk);
    var t := a.(queue := a.queue[..|a.queue| - nNow], threads := a.threads[i := w]);
    assert Poll(a, i) == (t, None);
    assert t.threads[i := Outside] == b.threads;
    Split(t.threads, i);
    forall c ensures ConservedAt(t, c) { TakeConserved(b, t, i, nNow, c); }
    TakeJudged(b, t, i);
    assert Active(t.threads[i]);
  }

  lemma TakeConserved(b: State, t: State, i: nat, nNow: nat, c: Check)
    requires Conserved(b) && i < |b.threads| == |t.threads| && nNow <= |b.queue|
    requires t.threads == b.threads[i := t.threads[i]] && b.threads[i].Outside?
    requires t.threads[i].Working? && t.threads[i].rest == FromBack(b.queue, nNow)
    requires t.queue == b.queue[..|b.queue| - nNow]
    requires t.added == b.added && t.passed == b.passed && t.failed == b.failed && t.skipped == b.skipped
    ensures ConservedAt(t, c)
  {
    assert ConservedAt(b, c);
    SumSplit(t.threads, Held(c), i);
    assert t.threads[i := Outside] == b.threads;
    FromBackSplits(b.queue, nNow, c);
  }

  lemma TakeJudged(b: State, t: State, i: nat)
    requires Judged(b) && i < |b.threads| == |t.threads| && b.fAllOk == t.fAllOk
    requires t.threads == b.threads[i := t.threads[i]] && b.threads[i].Outside?
    requires t.threads[i].Working? && t.threads[i].fOk == b.fAllOk
    requires t.failed == b.failed && t.skipped == b.skipped
    ensures Judged(t)
  {
    forall j | 0 <= j < |b.threads| && j != i ensures t.threads[j] == b.threads[j] {}
    assert AllGood(t) <==> AllGood(b);
  }

  /** The queue is drained and nobody works: the flag is the verdict on everything that was added. */
  lemma PollLeaves(a: State, i: nat)
    requires AtLock(a, i) && a.queue == [] && a.nTodo == 0
    requires i == MASTER || a.fQuit
    ensures Inv(Poll(a, i).0)
    ensures i == MASTER ==> Poll(a, i).1 == Some(a.fAllOk) && (a.fAllOk <==> SameChecks(a.added, a.passed))
    ensures i != MASTER ==> Poll(a, i).1 == None
  {
    var ts := a.threads[i := Outside];
    var b := a.(threads := ts);
    forall j | 0 <= j < |ts| ensures !ts[j].Working? {
      NoneInFlight(ts, j);
    }
    assert AllGood(b) <==> a.fAllOk;
    forall c ensures Times(a.added, c) == Times(a.passed, c) + Times(a.failed, c) + Times(a.skipped, c) {
      NoneHeld(ts, c);
      assert ConservedAt(b, c);
    }
    if i == MASTER {
      Verdict(a.added, a.passed, a.failed, a.skipped);
      forall c ensures ConservedAt(Poll(a, i).0, c) { NoneHeld(ts, c); }
    } else {
      forall c ensures ConservedAt(Poll(a, i).0, c) { assert ConservedAt(b, c); }
    }
  }

  lemma Verdict(added: seq<Check>, passed: seq<Check>, failed: seq<Check>, skipped: seq<Check>)
    requires forall c :: Times(added, c) == Times(passed, c) + Times(failed, c) + Times(skipped, c)
    ensures SameChecks(added, passed) <==> failed == [] && skipped == []
  {
    if failed != [] {
      var c := failed[|failed|-1];
      assert Times(failed, c) > 0;
      assert Times(added, c) != Times(passed, c);
    } else if skipped != [] {
      var c := skipped[|skipped|-1];
      assert Times(skipped, c) > 0;
      assert Times(added, c) != Times(passed, c);
    }
  }

  lemma StepInv(s: State, a: Action)
    requires Inv(s) && Enabled(s, a)
    ensures Inv(Step(s, a).0)
  {
    match a
    case Enter(i) => EnterInv(s, i);
    case Lock(i) => LockInv(s, i);
    case Execute(i, result) => ExecuteInv(s, i, result);
    case Add(checks, woken) => AddInv(s, checks, woken);
  }

  // ---------------------------------------------------------------------------------------------
  // Whole runs

  /** A run from the constructor: trace[k+1] follows from trace[k] by acts[k]. */
  ghost predicate IsRun(trace: seq<State>, acts: seq<Action>) {
    && |trace| == |acts| + 1
    && Init(trace[0])
    && forall k :: 0 <= k < |acts| ==> Follows(trace[k], acts[k], trace[k+1])
  }

  ghost predicate Follows(s: State, a: Action, t: State) {
    Enabled(s, a) && Step(s, a).0 == t
  }

  /** In every interleaving the invariant holds at every moment. */
  lemma {:induction false} RunInv(trace: seq<State>, acts: seq<Action>, k: nat)
    requires IsRun(trace, acts) && k < |trace|
    ensures Inv(trace[k])
  {
    if k == 0 {
      InitInv(trace[0]);
    } else {
      RunInv(trace, acts, k-1);
      assert Follows(trace[k-1], acts[k-1], trace[k]);
      StepInv(trace[k-1], acts[k-1]);
    }
  }

  /** nTodo is what is queued plus what is in flight, in every reachable state; the thread counts are exact. */
  lemma TodoIsExact(trace: seq<State>, acts: seq<Action>, k: nat)
    requires IsRun(trace, acts) && k < |trace|
    ensures trace[k].nTodo == |trace[k].queue| + SumBy(trace[k].threads, InFlight)
    ensures trace[k].nIdle == SumBy(trace[k].threads, Sleeps)
    ensures trace[k].nTotal == SumBy(trace[k].threads, InLoop)
  {
    RunInv(trace, acts, k);
  }

  /** A batch comes off the end of the queue and starts with the shared flag: after a failure none of it is run. */
  lemma TakenUnrun(s: State, i: nat)
    requires Enabled(s, Lock(i))
    ensures var t := Step(s, Lock(i)).0; var w := t.threads[i];
      w.Working? ==>
        && w.fOk == t.fAllOk && w.nNow == |w.rest| <= |s.queue|
        && w.rest == FromBack(s.queue, w.nNow) && t.queue == s.queue[..|s.queue| - w.nNow]
  {
  }

  /** A thread runs checks until one fails and skips the rest of its batch. */
  lemma SkipsTheRest(s: State, i: nat, result: bool)
    requires Enabled(s, Execute(i, result))
    ensures var t, x := Step(s, Execute(i, result)).0, s.threads[i].rest[0];
      && t.threads[i].rest == s.threads[i].rest[1..] && t.threads[i].fOk == (s.threads[i].fOk && result)
      && (t.passed == s.passed + [x] <==> s.threads[i].fOk && result)
      && (t.failed == s.failed + [x] <==> s.threads[i].fOk && !result)
      && (t.skipped == s.skipped + [x] <==> !s.threads[i].fOk)
  {
  }

  /** Wait returns true exactly when every check added since the last Wait was run and passed. */
  lemma WaitIsExact(trace: seq<State>, acts: seq<Action>, k: nat)
    requires IsRun(trace, acts) && k < |acts|
    ensures Enabled(trace[k], acts[k])
    ensures Step(trace[k], acts[k]).1.Some? ==>
      acts[k] == Lock(MASTER) && (Step(trace[k], acts[k]).1.value <==> SameChecks(trace[k].added, trace[k].passed))
  {
    assert Follows(trace[k], acts[k], trace[k+1]);
    RunInv(trace, acts, k);
    if acts[k].Lock? { LockInv(trace[k], acts[k].i); }
  }

  /**
  A master asleep without a pending notification has work outstanding, and some worker is holding
  it; a queue with work in it never finds the whole pool asleep unnotified.
  */
  lemma NoLostWakeup(trace: seq<State>, acts: seq<Action>, k: nat)
    requires IsRun(trace, acts) && k < |trace|
    ensures var s := trace[k];
      |s.threads| > MASTER
    ensures var s := trace[k];
      Napping(s.threads[MASTER]) ==>
        s.nTodo > 0 && exists j :: MASTER < j < |s.threads| && s.threads[j].Working?
    ensures var s := trace[k];
      s.queue != [] && (exists j :: 0 <= j < |s.threads| && Napping(s.threads[j])) ==>
        exists j :: 0 <= j < |s.threads| && Active(s.threads[j])
  {
    RunInv(trace, acts, k);
    var s := trace[k];
    if Napping(s.threads[MASTER]) {
      var j := SomeInFlight(s.threads);
      assert j != MASTER;
    }
  }
}
