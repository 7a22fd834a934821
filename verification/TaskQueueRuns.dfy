/** What every interleaving of the task-queue server keeps. */
module TaskQueueRuns {
  import opened Options
  import opened TaskQueue

  // ---------- the invariant ----------

  /** Each unfinished assigned task belongs to a child not yet reaped, which was
      handed it. */
  ghost predicate Owned(s: State) {
    forall i :: 0 <= i < |s.tasks| && Pending(s.tasks[i]) ==>
      s.tasks[i].assignedTo in s.children && i in s.children[s.tasks[i].assignedTo].handed
  }

  /** What a child remembers was handed to it, and is a task. */
  ghost predicate Remembered(s: State) {
    forall pid :: pid in s.children ==>
      var c := s.children[pid];
      && (c.taskIndex >= 0 ==> c.taskIndex in c.handed)
      && (c.taskIndex >= -1)
      && (forall i :: i in c.handed ==> 0 <= i < |s.tasks|)
  }

  ghost predicate Counted(s: State) {
    s.active == |s.children| + (if s.counted then 1 else 0)
  }

  ghost predicate Flagged(s: State) {
    s.flag <==> |s.tasks| > 0 && AllCompleted(s.tasks)
  }

  ghost predicate Timely(s: State) {
    && s.swept <= s.now
    && (forall pid :: pid in s.children && s.children[pid].clock.Some? ==> s.children[pid].clock.value <= s.now)
    && (s.parentClock.Some? ==> s.parentClock.value <= s.now)
    && (forall i :: 0 <= i < |s.tasks| && Pending(s.tasks[i]) ==>
          s.swept - TIMEOUT_SECONDS <= s.tasks[i].assignedAt <= s.now)
  }

  ghost predicate Inv(s: State) {
    OneEach(s.tasks) && Owned(s) && Remembered(s) && Counted(s) && Flagged(s) && Timely(s)
  }

  lemma {:induction false} InitInv(texts: seq<string>, now: int)
    ensures Inv(Init(texts, now))
  {
    if |texts| > 0 { assert !Load(texts)[0].isCompleted; }
  }

  /** Tasks never disappear, and `isCompleted` never goes back. */
  lemma {:induction false} StepKeeps(s: State, e: Event)
    requires Enabled(s, e)
    ensures |Apply(s, e).tasks| == |s.tasks|
    ensures forall i :: 0 <= i < |s.tasks| ==>
              && Apply(s, e).tasks[i].text == s.tasks[i].text
              && (s.tasks[i].isCompleted ==> Apply(s, e).tasks[i].isCompleted)
  {
  }

  lemma {:induction false} TargetInRange(s: State, pid: int)
    requires Inv(s) && pid in s.children
    ensures -1 <= Target(s.tasks, pid, s.children[pid].taskIndex) < |s.tasks|
    ensures var k := Target(s.tasks, pid, s.children[pid].taskIndex);
              k >= 0 ==> k in s.children[pid].handed
  {
  }

  /** Each critical section refines an atomic step on the pool, the holders and
      the finished tasks. */
  ghost predicate AbstractStep(s: State, e: Event, a: Abstract, b: Abstract)
    requires Enabled(s, e)
  {
    match e
    case GetTask(pid, _) => AbstractGet(a, pid, Reply(s.tasks, pid), b)
    case Finish(pid) =>
      var k := Target(s.tasks, pid, s.children[pid].taskIndex);
      && (forall i: nat :: Holds(a, pid, i) ==> k == i)
      && ((k < 0 && b == a) || (k >= 0 && b == AbstractFinish(a, k)))
    case Leave(pid) => b == AbstractReturn(a, set i | i in a.holder && a.holder[i] == pid)
    case Reap(pid) => b == AbstractReturn(a, set i | i in a.holder && a.holder[i] == pid)
    case Sweep(pid) => b == AbstractReturn(a, Overdue(s, s.children[pid].clock.value))
    case ParentSweep => b == AbstractReturn(a, Overdue(s, s.parentClock.value))
    case _ => b == a
  }

  function Overdue(s: State, clock: int): set<nat> {
    set i: nat | i < |s.tasks| && Pending(s.tasks[i]) && clock - s.tasks[i].assignedAt > TIMEOUT_SECONDS
  }

  lemma {:induction false} StepRefines(s: State, e: Event)
    requires Inv(s) && Enabled(s, e)
    ensures AbstractStep(s, e, Abs(s.tasks), Abs(Apply(s, e).tasks))
    ensures OneEach(Apply(s, e).tasks)
  {
    hide Owned, Flagged, Counted, Timely, AllCompleted;
    match e
    case GetTask(pid, _) => GetRefines(s.tasks, pid, s.now);
    case Finish(pid) =>
      TargetInRange(s, pid);
      var k := Target(s.tasks, pid, s.children[pid].taskIndex);
      if k >= 0 { FinishRefines(s.tasks, k); }
      forall i: nat | Holds(Abs(s.tasks), pid, i) ensures k == i {
        assert PendingFor(s.tasks[i], pid);
      }
    case Leave(pid) => ReleaseRefines(s.tasks, pid);
    case Reap(pid) => ReleaseRefines(s.tasks, pid);
    case Sweep(pid) =>
      ExpireRefines(s.tasks, s.children[pid].clock.value);
      assert Overdue(s, s.children[pid].clock.value)
          == set i: nat | i < |s.tasks| && Expired(s.tasks[i], s.children[pid].clock.value);
    case ParentSweep =>
      ExpireRefines(s.tasks, s.parentClock.value);
      assert Overdue(s, s.parentClock.value)
          == set i: nat | i < |s.tasks| && Expired(s.tasks[i], s.parentClock.value);
    case _ =>
  }

  lemma {:induction false} OwnedStep(s: State, e: Event)
    requires Inv(s) && Enabled(s, e)
    ensures Owned(Apply(s, e))
  {
    var s' := Apply(s, e);
    forall i | 0 <= i < |s'.tasks| && Pending(s'.tasks[i])
      ensures s'.tasks[i].assignedTo in s'.children && i in s'.children[s'.tasks[i].assignedTo].handed
    {
      StepKeeps(s, e);
      if Pending(s.tasks[i]) {
        assert s'.tasks[i].assignedTo == s.tasks[i].assignedTo;
      } else {
        assert e.GetTask?;
      }
    }
  }

  lemma {:induction false} RememberedStep(s: State, e: Event)
    requires Inv(s) && Enabled(s, e)
    ensures Remembered(Apply(s, e))
  {
  }

  lemma {:induction false} CountedStep(s: State, e: Event)
    requires Inv(s) && Enabled(s, e)
    ensures Counted(Apply(s, e))
  {
  }

  lemma {:induction false} FlaggedStep(s: State, e: Event)
    requires Inv(s) && Enabled(s, e)
    ensures Flagged(Apply(s, e))
  {
    StepKeeps(s, e);
    var s' := Apply(s, e);
    if e.Finish? {
      TargetInRange(s, e.pid);
    } else if AllCompleted(s'.tasks) {
      forall i | 0 <= i < |s.tasks| ensures s.tasks[i].isCompleted { assert s'.tasks[i].isCompleted; }
    }
  }

  lemma {:induction false} TimelyStep(s: State, e: Event)
    requires Inv(s) && Enabled(s, e)
    ensures Timely(Apply(s, e))
  {
    hide OneEach, Owned, Remembered, Flagged, Counted, AllCompleted, FirstPending, Target;
    var s' := Apply(s, e);
    StepKeeps(s, e);
    forall i | 0 <= i < |s'.tasks| && Pending(s'.tasks[i])
      ensures s'.swept - TIMEOUT_SECONDS <= s'.tasks[i].assignedAt <= s'.now
    {
      if Pending(s.tasks[i]) { assert s'.tasks[i].assignedAt == s.tasks[i].assignedAt; }
    }
  }

  lemma {:induction false} StepInv(s: State, e: Event)
    requires Inv(s) && Enabled(s, e)
    ensures Inv(Apply(s, e))
  {
    StepRefines(s, e);
    OwnedStep(s, e);
    RememberedStep(s, e);
    CountedStep(s, e);
    FlaggedStep(s, e);
    TimelyStep(s, e);
  }

  lemma {:induction false} RunInv(texts: seq<string>, now: int, es: seq<Event>)
    requires Runs(Init(texts, now), es)
    ensures Inv(After(Init(texts, now), es))
    ensures |After(Init(texts, now), es).tasks| == |texts|
    decreases |es|
  {
    if es == [] {
      InitInv(texts, now);
    } else {
      RunInv(texts, now, es[..|es| - 1]);
      StepInv(After(Init(texts, now), es[..|es| - 1]), es[|es| - 1]);
      StepKeeps(After(Init(texts, now), es[..|es| - 1]), es[|es| - 1]);
    }
  }

  // ---------- main results ----------

  /** In every reachable state the queue splits into free, held and finished
      tasks with no client holding two, and the next critical section acts on
      that split as one atomic step. */
  lemma {:induction false} QueueRefinement(texts: seq<string>, now: int, es: seq<Event>, e: Event)
    requires Runs(Init(texts, now), es) && Enabled(After(Init(texts, now), es), e)
    ensures var s := After(Init(texts, now), es);
      && Consistent(Abs(s.tasks), |texts|)
      && AbstractStep(s, e, Abs(s.tasks), Abs(Apply(s, e).tasks))
      && Consistent(Abs(Apply(s, e).tasks), |texts|)
  {
    RunInv(texts, now, es);
    var s := After(Init(texts, now), es);
    StepRefines(s, e);
    StepKeeps(s, e);
    AbsConsistent(s.tasks);
    AbsConsistent(Apply(s, e).tasks);
  }

  /** Every held task is held by a child still to be reaped, even one that died
      without releasing; reaping it puts exactly its unfinished tasks back. */
  lemma {:induction false} NoOrphanedTask(texts: seq<string>, now: int, es: seq<Event>)
    requires Runs(Init(texts, now), es)
    ensures var s := After(Init(texts, now), es);
      && (forall i :: i in Abs(s.tasks).holder ==> Abs(s.tasks).holder[i] in s.children)
      && (forall pid :: pid in s.children && !s.children[pid].running ==>
            var t := Apply(s, Reap(pid));
            forall i :: 0 <= i < |s.tasks| ==>
              if PendingFor(s.tasks[i], pid) then Free(t.tasks[i]) else t.tasks[i] == s.tasks[i])
  {
    RunInv(texts, now, es);
    var s := After(Init(texts, now), es);
    forall pid, i | pid in s.children && !s.children[pid].running && 0 <= i < |s.tasks|
      ensures if PendingFor(s.tasks[i], pid) then Free(Apply(s, Reap(pid)).tasks[i])
              else Apply(s, Reap(pid)).tasks[i] == s.tasks[i]
    {
      assert Enabled(s, Reap(pid));
    }
  }

  /** The parent stops when the flag is up and nobody is counted. It looks only
      while no connection is waiting to be forked. */
  predicate MayShutDown(s: State) { !s.counted && s.flag && s.active == 0 }

  /** The flag is up exactly when there are tasks and all are finished; the
      parent stops exactly when, besides, no child is left. */
  lemma {:induction false} ShutdownSound(texts: seq<string>, now: int, es: seq<Event>)
    requires Runs(Init(texts, now), es)
    ensures var s := After(Init(texts, now), es);
      && (s.flag <==> |texts| > 0 && AllCompleted(s.tasks))
      && s.active == |s.children| + (if s.counted then 1 else 0)
      && (MayShutDown(s) <==>
            |texts| > 0 && AllCompleted(s.tasks) && s.children == map[] && !s.counted)
  {
    RunInv(texts, now, es);
    var s := After(Init(texts, now), es);
    if |s.children| == 0 { assert s.children == map[]; }
  }

  /** With the clock read before the lock by each sweep: no task stays pending
      more than 30 s behind the latest clock swept, and no sweep takes back a
      task held 30 s or less by the true time. Handing a task out again changes
      nothing, so it cannot extend a deadline. */
  lemma {:induction false} TimeoutBound(texts: seq<string>, now: int, es: seq<Event>, e: Event)
    requires Runs(Init(texts, now), es) && Enabled(After(Init(texts, now), es), e)
    ensures var s := After(Init(texts, now), es);
      && var t := Apply(s, e);
      && t.swept >= s.swept
      && (e.Sweep? ==> t.swept >= s.children[e.pid].clock.value)
      && (e.ParentSweep? ==> t.swept >= s.parentClock.value)
      && (forall i :: 0 <= i < |t.tasks| && Pending(t.tasks[i]) ==> t.tasks[i].assignedAt >= t.swept - TIMEOUT_SECONDS)
      && (e.Sweep? || e.ParentSweep? ==>
            forall i :: 0 <= i < |s.tasks| && s.now - s.tasks[i].assignedAt <= TIMEOUT_SECONDS ==>
              t.tasks[i] == s.tasks[i])
      && (e.GetTask? && FirstPending(s.tasks, e.pid) < |s.tasks| ==> t.tasks == s.tasks)
  {
    RunInv(texts, now, es);
    var s := After(Init(texts, now), es);
    StepInv(s, e);
    StepKeeps(s, e);
  }

  // ---------- late results ----------

  lemma {:induction false} RunsPrefix(s: State, es: seq<Event>, k: nat)
    requires Runs(s, es) && k <= |es|
    ensures Runs(s, es[..k])
    decreases |es|
  {
    if k < |es| {
      RunsPrefix(s, es[..|es| - 1], k);
      assert es[..|es| - 1][..k] == es[..k];
    } else {
      assert es[..k] == es;
    }
  }

  lemma {:induction false} RunStart(s: State)
    ensures Runs(s, []) && After(s, []) == s
  {
  }

  lemma {:induction false} RunPoint(s: State, es: seq<Event>, k: nat)
    requires Runs(s, es) && k < |es|
    ensures Runs(s, es[..k]) && Enabled(After(s, es[..k]), es[k])
    ensures Runs(s, es[..k + 1]) && After(s, es[..k + 1]) == Apply(After(s, es[..k]), es[k])
  {
    RunsPrefix(s, es, k + 1);
    assert es[..k + 1][..k] == es[..k];
  }

  /** After a sweep of the parent no connection waits to be forked. */
  lemma {:induction false} NotCounted(s: State, es: seq<Event>, k: nat)
    requires Runs(s, es) && k < |es| && es[k].ParentSweep?
    ensures Runs(s, es[..k + 1]) && !After(s, es[..k + 1]).counted
  {
    RunPoint(s, es, k);
  }

  /** A finished task stays finished for the rest of the run. */
  lemma {:induction false} CompletedStays(s: State, es: seq<Event>, k: nat, i: nat)
    requires Runs(s, es) && k <= |es| && i < |s.tasks|
    ensures Runs(s, es[..k])
    ensures |After(s, es[..k]).tasks| == |After(s, es).tasks| == |s.tasks|
    ensures After(s, es[..k]).tasks[i].isCompleted ==> After(s, es).tasks[i].isCompleted
    decreases |es|
  {
    RunsPrefix(s, es, k);
    if es != [] {
      var before := es[..|es| - 1];
      StepKeeps(After(s, before), es[|es| - 1]);
      if k < |es| {
        CompletedStays(s, before, k, i);
        assert before[..k] == es[..k];
      } else {
        CompletedStays(s, before, 0, i);
        assert es[..k] == es;
      }
    } else {
      assert es[..k] == es;
    }
  }

  /** Event `k` of the run answered client `pid` with task `i`. */
  ghost predicate SentAt(s: State, es: seq<Event>, k: nat, pid: int, i: nat)
    requires Runs(s, es)
  {
    && k < |es| && es[k].GetTask? && es[k].pid == pid
    && Runs(s, es[..k]) && Reply(After(s, es[..k]).tasks, pid) == Some(i)
  }

  /** A finished task is never sent again. */
  lemma {:induction false} CompletedNeverSent(s: State, es: seq<Event>, j: nat, k: nat, pid: int, i: nat)
    requires Runs(s, es) && j <= k < |es| && i < |s.tasks|
    requires Runs(s, es[..j]) && i < |After(s, es[..j]).tasks| && After(s, es[..j]).tasks[i].isCompleted
    ensures !SentAt(s, es, k, pid, i)
  {
    RunsPrefix(s, es, k);
    assert es[..k][..j] == es[..j];
    CompletedStays(s, es[..k], j, i);
  }

  lemma {:induction false} HandedStep(s: State, e: Event, pid: int, i: int)
    requires Enabled(s, e) && pid in Apply(s, e).children && i in Apply(s, e).children[pid].handed
    ensures || (pid in s.children && i in s.children[pid].handed && e != Reap(pid))
            || (e.GetTask? && e.pid == pid && i >= 0 && Reply(s.tasks, pid) == Some(i))
  {
  }

  /** What a child's record calls handed was sent to it since it was forked. */
  lemma {:induction false} HandedWasSent(texts: seq<string>, now: int, es: seq<Event>, pid: int, i: int)
    returns (k: nat)
    requires Runs(Init(texts, now), es)
    requires pid in After(Init(texts, now), es).children && i in After(Init(texts, now), es).children[pid].handed
    ensures i >= 0 && SentAt(Init(texts, now), es, k, pid, i) && Reap(pid) !in es[k..]
    decreases |es|
  {
    var s0 := Init(texts, now);
    assert es != [];
    var before, e := es[..|es| - 1], es[|es| - 1];
    var s := After(s0, before);
    HandedStep(s, e, pid, i);
    if pid in s.children && i in s.children[pid].handed && e != Reap(pid) {
      k := HandedWasSent(texts, now, before, pid, i);
      assert es[..k] == before[..k] && es[k..] == before[k..] + [e];
    } else {
      k := |es| - 1;
      assert es[k..] == [e];
    }
  }

  /** A result, however late, finishes only a task that was sent to that client
      in the same session. */
  lemma {:induction false} ResultsWereSent(texts: seq<string>, now: int, es: seq<Event>, pid: int)
    requires Runs(Init(texts, now), es) && Enabled(After(Init(texts, now), es), Finish(pid))
    ensures var s := After(Init(texts, now), es);
      forall i :: 0 <= i < |s.tasks| && Apply(s, Finish(pid)).tasks[i] != s.tasks[i] ==>
        exists k: nat :: SentAt(Init(texts, now), es, k, pid, i) && Reap(pid) !in es[k..]
  {
    RunInv(texts, now, es);
    var s := After(Init(texts, now), es);
    TargetInRange(s, pid);
    forall i | 0 <= i < |s.tasks| && Apply(s, Finish(pid)).tasks[i] != s.tasks[i]
      ensures exists k: nat :: SentAt(Init(texts, now), es, k, pid, i) && Reap(pid) !in es[k..]
    {
      var k := HandedWasSent(texts, now, es, pid, i);
    }
  }

  function DoneCount(ts: seq<Task>): (n: nat)
    ensures n <= |ts|
    ensures n == |ts| <==> AllCompleted(ts)
  {
    if ts == [] then 0
    else
      assert ts == ts[..|ts| - 1] + [ts[|ts| - 1]];
      DoneCount(ts[..|ts| - 1]) + if ts[|ts| - 1].isCompleted then 1 else 0
  }

  lemma {:induction false} DoneCountSame(ts: seq<Task>, us: seq<Task>)
    requires |us| == |ts| && forall i :: 0 <= i < |ts| ==> us[i].isCompleted == ts[i].isCompleted
    ensures DoneCount(us) == DoneCount(ts)
  {
    if ts != [] { DoneCountSame(ts[..|ts| - 1], us[..|us| - 1]); }
  }

  lemma {:induction false} DoneCountCredit(ts: seq<Task>, k: nat)
    requires k < |ts|
    ensures DoneCount(Credit(ts, k)) == DoneCount(ts) + if ts[k].isCompleted then 0 else 1
  {
    var n := |ts| - 1;
    if k < n {
      DoneCountCredit(ts[..n], k);
      assert Credit(ts, k)[..n] == Credit(ts[..n], k);
    } else {
      assert Credit(ts, k)[..n] == ts[..n];
    }
  }

  lemma {:induction false} DoneCountStep(s: State, e: Event)
    requires Inv(s) && Enabled(s, e)
    ensures DoneCount(Apply(s, e).tasks)
         == DoneCount(s.tasks) + if e.Finish? && Apply(s, e).tasks != s.tasks then 1 else 0
  {
    if e.Finish? {
      TargetInRange(s, e.pid);
      var k := Target(s.tasks, e.pid, s.children[e.pid].taskIndex);
      if k >= 0 {
        DoneCountCredit(s.tasks, k);
        if s.tasks[k].isCompleted { assert Credit(s.tasks, k) == s.tasks; }
        else { assert Credit(s.tasks, k)[k] != s.tasks[k]; }
      }
    } else {
      StepKeeps(s, e);
      DoneCountSame(s.tasks, Apply(s, e).tasks);
    }
  }

  /** How many results of the run finished a task for the first time. */
  ghost function Firsts(s: State, es: seq<Event>): nat
    requires Runs(s, es)
    decreases |es|
  {
    if es == [] then 0
    else
      var before, e := es[..|es| - 1], es[|es| - 1];
      Firsts(s, before)
      + if e.Finish? && Apply(After(s, before), e).tasks != After(s, before).tasks then 1 else 0
  }

  lemma {:induction false} FirstsCount(texts: seq<string>, now: int, es: seq<Event>)
    requires Runs(Init(texts, now), es)
    ensures Firsts(Init(texts, now), es) == DoneCount(After(Init(texts, now), es).tasks)
    decreases |es|
  {
    var s0 := Init(texts, now);
    if es == [] {
      NothingDone(texts);
    } else {
      var before := es[..|es| - 1];
      FirstsCount(texts, now, before);
      RunInv(texts, now, before);
      DoneCountStep(After(s0, before), es[|es| - 1]);
    }
  }

  lemma {:induction false} NothingDone(texts: seq<string>)
    ensures DoneCount(Load(texts)) == 0
  {
    if texts != [] {
      NothingDone(texts[..|texts| - 1]);
      assert Load(texts)[..|texts| - 1] == Load(texts[..|texts| - 1]);
    }
  }

  /** The flag goes up with exactly the last of `|texts|` first results. */
  lemma {:induction false} FlagAfterAllFirsts(texts: seq<string>, now: int, es: seq<Event>)
    requires Runs(Init(texts, now), es)
    ensures Firsts(Init(texts, now), es) <= |texts|
    ensures After(Init(texts, now), es).flag <==> |texts| > 0 && Firsts(Init(texts, now), es) == |texts|
  {
    RunInv(texts, now, es);
    FirstsCount(texts, now, es);
  }

  // ---------- a late result overtakes the holder ----------

  /** The result of client `pid` finishes task `i`. */
  predicate Finishes(s: State, pid: int, i: int)
    requires Enabled(s, Finish(pid))
  {
    0 <= i < |s.tasks| && !s.tasks[i].isCompleted
    && 0 <= i < |Apply(s, Finish(pid)).tasks| && Apply(s, Finish(pid)).tasks[i].isCompleted
  }

  /** Client `pid` holds no task and remembers one that is not finished. That the
      index it remembers is one of a task holds in every reachable state. */
  predicate ComesLate(s: State, pid: int)
    requires pid in s.children
  {
    var k := s.children[pid].taskIndex;
    (forall i :: 0 <= i < |s.tasks| ==> !PendingFor(s.tasks[i], pid))
    && 0 <= k && (k < |s.tasks| ==> !s.tasks[k].isCompleted)
  }

  /** In every reachable state: a result finishes a task its sender does not hold
      exactly when the sender holds none and remembers an unfinished one; that
      task, and no other, is finished; and somebody else is holding it exactly
      when it has been handed out again. A result changes nothing but by
      finishing a task. */
  lemma {:induction false} LateResultExactly(texts: seq<string>, now: int, es: seq<Event>, pid: int)
    requires Runs(Init(texts, now), es) && Enabled(After(Init(texts, now), es), Finish(pid))
    ensures var s := After(Init(texts, now), es);
      var k := s.children[pid].taskIndex;
      && ((exists i :: Finishes(s, pid, i) && !PendingFor(s.tasks[i], pid)) <==> ComesLate(s, pid))
      && ((exists i :: Finishes(s, pid, i) && Pending(s.tasks[i]) && s.tasks[i].assignedTo != pid)
          <==> ComesLate(s, pid) && k < |s.tasks| && Pending(s.tasks[k]))
      && (ComesLate(s, pid) ==> k < |s.tasks| && forall i :: Finishes(s, pid, i) <==> i == k)
      && (forall i :: 0 <= i < |s.tasks| && Apply(s, Finish(pid)).tasks[i] != s.tasks[i] ==> Finishes(s, pid, i))
  {
    RunInv(texts, now, es);
    var s := After(Init(texts, now), es);
    var k := s.children[pid].taskIndex;
    TargetInRange(s, pid);
    forall i ensures Finishes(s, pid, i) <==> i == Target(s.tasks, pid, k) && i >= 0 && !s.tasks[i].isCompleted {
      FinishesTarget(s, pid, i);
    }
    if ComesLate(s, pid) { assert Finishes(s, pid, k); }
  }

  lemma {:induction false} FinishesTarget(s: State, pid: int, i: int)
    requires Inv(s) && Enabled(s, Finish(pid))
    ensures var k := Target(s.tasks, pid, s.children[pid].taskIndex);
      k < |s.tasks| && (Finishes(s, pid, i) <==> i == k && i >= 0 && !s.tasks[i].isCompleted)
  {
  }

  const SCRIPT := [Accept, Fork(7), Accept, Fork(8), GetTask(7, true), Tick(31), ParentReadClock, ParentSweep,
                   GetTask(8, true)]

  const IDLE := Child(true, -1, None, {})
  const HOLDING := Child(true, 0, None, {0})

  function One(owner: int, at: int): seq<Task> { [Task("1 + 1", owner != 0, false, owner, at)] }

  /** The state after `k` events of the script. */
  function Stage(k: nat): State {
    if k == 0 then State(One(0, 0), false, 0, map[], false, None, 0, 0)
    else if k == 1 then State(One(0, 0), false, 1, map[], true, None, 0, 0)
    else if k == 2 then State(One(0, 0), false, 1, map[7 := IDLE], false, None, 0, 0)
    else if k == 3 then State(One(0, 0), false, 2, map[7 := IDLE], true, None, 0, 0)
    else if k == 4 then State(One(0, 0), false, 2, map[7 := IDLE, 8 := IDLE], false, None, 0, 0)
    else if k == 5 then State(One(7, 0), false, 2, map[7 := HOLDING, 8 := IDLE], false, None, 0, 0)
    else if k == 6 then State(One(7, 0), false, 2, map[7 := HOLDING, 8 := IDLE], false, None, 31, 0)
    else if k == 7 then State(One(7, 0), false, 2, map[7 := HOLDING, 8 := IDLE], false, Some(31), 31, 0)
    else if k == 8 then State(One(0, 0), false, 2, map[7 := HOLDING, 8 := IDLE], false, None, 31, 31)
    else State(One(8, 31), false, 2, map[7 := HOLDING, 8 := HOLDING], false, None, 31, 31)
  }

  lemma {:induction false} EarlyStage(k: nat)
    requires k < 5
    ensures Enabled(Stage(k), SCRIPT[k]) && Apply(Stage(k), SCRIPT[k]) == Stage(k + 1)
  {
    if k == 4 { HandsOver(0, 7); }
  }

  lemma {:induction false} LateStage(k: nat)
    requires 5 <= k < |SCRIPT|
    ensures Enabled(Stage(k), SCRIPT[k]) && Apply(Stage(k), SCRIPT[k]) == Stage(k + 1)
  {
    if k == 7 { assert Expire(Stage(7).tasks, 31) == Stage(8).tasks; }
    else if k == 8 { HandsOver(31, 8); }
  }

  /** The free task goes to client `pid` at time `at`. */
  lemma {:induction false} HandsOver(at: int, pid: int)
    requires pid > 0
    ensures Reply(One(0, 0), pid) == Some(0) && HandOut(One(0, 0), pid, at) == One(pid, at)
    ensures ChildAfterGet(IDLE, One(0, 0), pid, true) == HOLDING
  {
  }

  lemma {:induction false} ScriptRuns(k: nat)
    requires k <= |SCRIPT|
    ensures Runs(Init(["1 + 1"], 0), SCRIPT[..k])
    ensures After(Init(["1 + 1"], 0), SCRIPT[..k]) == Stage(k)
  {
    if k == 0 {
      assert Load(["1 + 1"]) == One(0, 0);
    } else {
      ScriptRuns(k - 1);
      if k <= 5 { EarlyStage(k - 1); } else { LateStage(k - 1); }
      assert SCRIPT[..k][..k - 1] == SCRIPT[..k - 1];
    }
  }

  lemma {:induction false} LateResultOnStage()
    ensures |Stage(9).tasks| == 1 && PendingFor(Stage(9).tasks[0], 8) && Enabled(Stage(9), Finish(7))
    ensures |Apply(Stage(9), Finish(7)).tasks| == 1 && Apply(Stage(9), Finish(7)).tasks[0].isCompleted
  {
  }

  /** The holder is not the only client who can finish a task: in a reachable
      state client 8 holds it and client 7's late result finishes it. */
  lemma {:induction false} LateResultFinishes()
    ensures Runs(Init(["1 + 1"], 0), SCRIPT)
    ensures var s := After(Init(["1 + 1"], 0), SCRIPT);
      && |s.tasks| == 1 && PendingFor(s.tasks[0], 8) && Enabled(s, Finish(7))
      && |Apply(s, Finish(7)).tasks| == 1 && Apply(s, Finish(7)).tasks[0].isCompleted
  {
    hide Runs, After, Init, Apply, Enabled, Stage, PendingFor;
    ScriptRuns(|SCRIPT|);
    assert SCRIPT[..|SCRIPT|] == SCRIPT;
    LateResultOnStage();
  }
}
