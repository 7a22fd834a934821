/** What clients and parent can observe of the task-queue server, read off the
    history of a run and not off the variables of its processes. */
module TaskHistory {
  import opened Options
  import opened TaskQueue
  import opened TaskQueueRuns

  // ---------- who is there ----------

  /** Event `j` starts it and none of the later ones stops it. */
  predicate SinceAt(es: seq<Event>, start: Event -> bool, stop: Event -> bool, j: int) {
    0 <= j < |es| && start(es[j]) && forall c :: j < c < |es| ==> !stop(es[c])
  }

  ghost predicate Since(es: seq<Event>, start: Event -> bool, stop: Event -> bool) {
    exists j :: SinceAt(es, start, stop, j)
  }

  lemma {:induction false} SinceMore(es: seq<Event>, start: Event -> bool, stop: Event -> bool)
    requires es != []
    ensures var e := es[|es| - 1];
      Since(es, start, stop) <==> start(e) || (Since(es[..|es| - 1], start, stop) && !stop(e))
  {
    var n := |es| - 1;
    var before := es[..n];
    assert forall c :: 0 <= c < n ==> before[c] == es[c];
    forall j | SinceAt(es, start, stop, j) && j < n ensures SinceAt(before, start, stop, j) && !stop(es[n]) {}
    forall j | SinceAt(before, start, stop, j) && !stop(es[n]) ensures SinceAt(es, start, stop, j) {}
    assert start(es[n]) ==> SinceAt(es, start, stop, n);
  }

  function IsFork(pid: int): Event -> bool { e => e == Fork(pid) }

  function IsReap(pid: int): Event -> bool { e => e == Reap(pid) }

  /** What ends a child: its client leaves, it dies, or an answer cannot be sent. */
  function EndsChild(pid: int): Event -> bool {
    e => e == Leave(pid) || e == Die(pid) || e == GetTask(pid, false)
  }

  /** A child is served from its fork until something ends it, and no longer; it
      is left to reap from then on. */
  lemma {:induction false} ServedExactly(texts: seq<string>, now: int, es: seq<Event>, pid: int)
    requires Runs(Init(texts, now), es)
    ensures var s := After(Init(texts, now), es);
      var forked, served := Since(es, IsFork(pid), IsReap(pid)), Since(es, IsFork(pid), EndsChild(pid));
      && (pid in s.children <==> forked) && (Running(s, pid) <==> served)
      && (forall sent :: Enabled(s, GetTask(pid, sent)) <==> served)
      && (Enabled(s, Finish(pid)) <==> served) && (Enabled(s, Leave(pid)) <==> served)
      && (Enabled(s, Reap(pid)) <==> forked && !served)
    decreases |es|
  {
    if es != [] {
      var before, e := es[..|es| - 1], es[|es| - 1];
      ServedExactly(texts, now, before, pid);
      SinceMore(es, IsFork(pid), IsReap(pid));
      SinceMore(es, IsFork(pid), EndsChild(pid));
      ServedStep(After(Init(texts, now), before), e, pid);
    }
  }

  lemma {:induction false} ServedStep(s: State, e: Event, pid: int)
    requires Enabled(s, e)
    ensures pid in Apply(s, e).children <==> e == Fork(pid) || (pid in s.children && e != Reap(pid))
    ensures Running(Apply(s, e), pid) <==> e == Fork(pid) || (Running(s, pid) && !EndsChild(pid)(e))
  {
    hide HandOut, Credit, Release, Expire, Reply, Target, AllCompleted;
  }

  // ---------- what a result finishes ----------

  /** Event `k` is the latest request of the client in this session. */
  predicate LatestGet(es: seq<Event>, k: int, pid: int) {
    && 0 <= k < |es| && es[k].GetTask? && es[k].pid == pid
    && forall c :: k < c < |es| ==> !(es[c].GetTask? && es[c].pid == pid) && es[c] != Reap(pid)
  }

  /** A child that holds a task remembers that one. */
  ghost predicate Mindful(s: State) {
    forall i :: 0 <= i < |s.tasks| && Pending(s.tasks[i]) ==>
      s.tasks[i].assignedTo in s.children && s.children[s.tasks[i].assignedTo].taskIndex == i
  }

  lemma {:induction false} TargetIsRemembered(s: State, pid: int)
    requires Mindful(s) && pid in s.children
    ensures Target(s.tasks, pid, s.children[pid].taskIndex) == s.children[pid].taskIndex
  {
    var k := FirstPending(s.tasks, pid);
    if k < |s.tasks| { assert Pending(s.tasks[k]); }
  }

  lemma {:induction false} MindfulStep(s: State, e: Event)
    requires Inv(s) && Mindful(s) && Enabled(s, e)
    ensures Mindful(Apply(s, e))
  {
    hide Remembered, Counted, Flagged, Timely, AllCompleted;
    var t := Apply(s, e);
    StepKeeps(s, e);
    if e.Finish? { TargetIsRemembered(s, e.pid); }
    forall i | 0 <= i < |t.tasks| && Pending(t.tasks[i])
      ensures t.tasks[i].assignedTo in t.children && t.children[t.tasks[i].assignedTo].taskIndex == i
    {
      PendingStep(s, e, i);
      if Pending(s.tasks[i]) {
        var pid := s.tasks[i].assignedTo;
        if e.GetTask? && e.pid == pid { assert PendingFor(s.tasks[i], pid); }
      }
    }
  }

  /** A task becomes pending only by being handed out while free. */
  lemma {:induction false} PendingStep(s: State, e: Event, i: int)
    requires Enabled(s, e) && 0 <= i < |s.tasks| == |Apply(s, e).tasks| && Pending(Apply(s, e).tasks[i])
    ensures if Pending(s.tasks[i]) then Apply(s, e).tasks[i] == s.tasks[i]
            else Free(s.tasks[i]) && e.GetTask? && Reply(s.tasks, e.pid) == Some(i)
                 && Apply(s, e).tasks[i].assignedTo == e.pid && Apply(s, e).tasks[i].assignedAt == s.now
  {
    hide AllCompleted;
  }

  lemma {:induction false} MindfulRun(texts: seq<string>, now: int, es: seq<Event>)
    requires Runs(Init(texts, now), es)
    ensures Mindful(After(Init(texts, now), es))
    decreases |es|
  {
    if es != [] {
      MindfulRun(texts, now, es[..|es| - 1]);
      RunInv(texts, now, es[..|es| - 1]);
      MindfulStep(After(Init(texts, now), es[..|es| - 1]), es[|es| - 1]);
    }
  }

  function IndexIn(r: Option<nat>): int { if r.Some? then r.value else -1 }

  lemma {:induction false} RememberStep(s: State, e: Event, pid: int)
    requires Mindful(s) && Enabled(s, e) && pid in Apply(s, e).children
    ensures var k := Apply(s, e).children[pid].taskIndex;
      if e == Fork(pid) then k == -1
      else pid in s.children && k == if e.GetTask? && e.pid == pid then IndexIn(Reply(s.tasks, pid))
                                     else s.children[pid].taskIndex
  {
    hide Reply, Target, HandOut, Credit, AllCompleted, Mindful;
    if e.Finish? { TargetIsRemembered(s, e.pid); }
  }

  lemma {:induction false} AfterLatest(texts: seq<string>, now: int, es: seq<Event>, k: int, pid: int)
    requires Runs(Init(texts, now), es) && LatestGet(es, k, pid)
    ensures Runs(Init(texts, now), es[..k]) && pid in After(Init(texts, now), es).children
    ensures After(Init(texts, now), es).children[pid].taskIndex
         == IndexIn(Reply(After(Init(texts, now), es[..k]).tasks, pid))
    decreases |es|
  {
    var before, e := es[..|es| - 1], es[|es| - 1];
    var s := After(Init(texts, now), before);
    MindfulRun(texts, now, before);
    hide Mindful, Reply, Running;
    if k < |es| - 1 {
      assert LatestGet(before, k, pid) && before[..k] == es[..k];
      AfterLatest(texts, now, before, k, pid);
      assert e != Reap(pid);
    }
    ServedStep(s, e, pid);
    RememberStep(s, e, pid);
    assert e == Fork(pid) ==> pid !in s.children;
  }

  lemma {:induction false} LatestFound(texts: seq<string>, now: int, es: seq<Event>, pid: int) returns (k: int)
    requires Runs(Init(texts, now), es) && pid in After(Init(texts, now), es).children
    requires After(Init(texts, now), es).children[pid].taskIndex >= 0
    ensures LatestGet(es, k, pid)
    decreases |es|
  {
    var s0 := Init(texts, now);
    StepFromBefore(s0, es);
    var before, e := es[..|es| - 1], es[|es| - 1];
    MindfulRun(texts, now, before);
    hide After, Runs, Apply, Enabled, Mindful, LatestGet, Reply, Running;
    ServedStep(After(s0, before), e, pid);
    RememberStep(After(s0, before), e, pid);
    if e.GetTask? && e.pid == pid {
      k := |es| - 1;
      GetNow(es, pid);
    } else {
      k := LatestFound(texts, now, before, pid);
      GetMore(es, k, pid);
    }
  }

  lemma {:induction false} GetNow(es: seq<Event>, pid: int)
    requires es != [] && es[|es| - 1].GetTask? && es[|es| - 1].pid == pid
    ensures LatestGet(es, |es| - 1, pid)
  {
  }

  lemma {:induction false} GetMore(es: seq<Event>, k: int, pid: int)
    requires es != [] && LatestGet(es[..|es| - 1], k, pid)
    requires var e := es[|es| - 1]; !(e.GetTask? && e.pid == pid) && e != Reap(pid)
    ensures LatestGet(es, k, pid)
  {
    assert forall c :: 0 <= c < |es| - 1 ==> es[..|es| - 1][c] == es[c];
  }

  /** The latest request of the client was answered with task `i`. */
  ghost predicate LastAnswered(texts: seq<string>, now: int, es: seq<Event>, pid: int, i: int)
    requires Runs(Init(texts, now), es)
  {
    exists k: nat :: LatestGet(es, k, pid) && i >= 0 && SentAt(Init(texts, now), es, k, pid, i)
  }

  /** A result finishes a task exactly when the latest request of that client in
      that session was answered with it and it is not finished yet; it changes
      nothing else. A client last told that there is no task changes nothing. */
  lemma {:induction false} ResultExactly(texts: seq<string>, now: int, es: seq<Event>, pid: int)
    requires Runs(Init(texts, now), es) && Enabled(After(Init(texts, now), es), Finish(pid))
    ensures var s := After(Init(texts, now), es);
      var t := Apply(s, Finish(pid));
      && |t.tasks| == |s.tasks|
      && forall i :: 0 <= i < |s.tasks| ==>
           if LastAnswered(texts, now, es, pid, i) && !s.tasks[i].isCompleted
           then t.tasks[i].isCompleted
           else t.tasks[i] == s.tasks[i]
  {
    var s := After(Init(texts, now), es);
    RunInv(texts, now, es);
    MindfulRun(texts, now, es);
    TargetIsRemembered(s, pid);
    TargetInRange(s, pid);
    var r := s.children[pid].taskIndex;
    forall i | 0 <= i < |s.tasks| ensures LastAnswered(texts, now, es, pid, i) <==> i == r {
      LastAnsweredIs(texts, now, es, pid, i);
    }
    hide LastAnswered, Runs, After, Inv, Mindful;
    if r >= 0 && s.tasks[r].isCompleted { assert Credit(s.tasks, r)[r] == s.tasks[r]; }
  }

  /** In particular a client last told that there is no task finishes none. */
  lemma {:induction false} ToldNone(texts: seq<string>, now: int, es: seq<Event>, k: nat, pid: int)
    requires Runs(Init(texts, now), es) && Enabled(After(Init(texts, now), es), Finish(pid))
    requires LatestGet(es, k, pid)
    ensures Runs(Init(texts, now), es[..k])
    ensures Reply(After(Init(texts, now), es[..k]).tasks, pid).None? ==>
              Apply(After(Init(texts, now), es), Finish(pid)).tasks == After(Init(texts, now), es).tasks
  {
    AfterLatest(texts, now, es, k, pid);
    MindfulRun(texts, now, es);
    TargetIsRemembered(After(Init(texts, now), es), pid);
  }

  lemma {:induction false} LastAnsweredIs(texts: seq<string>, now: int, es: seq<Event>, pid: int, i: nat)
    requires Runs(Init(texts, now), es) && pid in After(Init(texts, now), es).children
    ensures LastAnswered(texts, now, es, pid, i) <==> After(Init(texts, now), es).children[pid].taskIndex == i
  {
    forall k: nat | LatestGet(es, k, pid)
      ensures Runs(Init(texts, now), es[..k])
      ensures After(Init(texts, now), es).children[pid].taskIndex
           == IndexIn(Reply(After(Init(texts, now), es[..k]).tasks, pid))
    {
      AfterLatest(texts, now, es, k, pid);
    }
    if After(Init(texts, now), es).children[pid].taskIndex == i {
      var k := LatestFound(texts, now, es, pid);
      assert SentAt(Init(texts, now), es, k, pid, i);
    }
  }

  // ---------- what a sweep releases ----------

  /** Event `h` handed the free task `i` to the client that holds it ever since. */
  ghost predicate HandedAt(s: State, es: seq<Event>, h: nat, i: int)
    requires Runs(s, es)
  {
    && h < |es| && es[h].GetTask?
    && Runs(s, es[..h]) && 0 <= i < |After(s, es[..h]).tasks| && Free(After(s, es[..h]).tasks[i])
    && forall j :: h < j <= |es| ==> HeldAt(s, es, j, i, es[h].pid)
  }

  ghost predicate HeldAt(s: State, es: seq<Event>, j: nat, i: int, pid: int)
    requires j <= |es|
  {
    Runs(s, es[..j]) && 0 <= i < |After(s, es[..j]).tasks| && PendingFor(After(s, es[..j]).tasks[i], pid)
  }

  lemma {:induction false} HandedSince(texts: seq<string>, now: int, es: seq<Event>, i: int) returns (h: nat)
    requires Runs(Init(texts, now), es)
    requires 0 <= i < |After(Init(texts, now), es).tasks| && Pending(After(Init(texts, now), es).tasks[i])
    ensures HandedAt(Init(texts, now), es, h, i)
    ensures h < |es| && es[h].GetTask? && Runs(Init(texts, now), es[..h])
    ensures After(Init(texts, now), es).tasks[i].assignedTo == es[h].pid
    ensures After(Init(texts, now), es).tasks[i].assignedAt == After(Init(texts, now), es[..h]).now
    decreases |es|
  {
    var s0, n := Init(texts, now), |es| - 1;
    StepFromBefore(s0, es);
    var before, e := es[..n], es[n];
    var s := After(s0, before);
    hide After, Runs, Apply, Enabled, HandedAt;
    StepKeeps(s, e);
    PendingStep(s, e, i);
    if Pending(s.tasks[i]) {
      h := HandedSince(texts, now, before, i);
      HandedMore(s0, es, h, i);
    } else {
      h := n;
      HandedNow(s0, es, i);
    }
  }

  lemma {:induction false} StepFromBefore(s: State, es: seq<Event>)
    requires Runs(s, es)
    ensures es == [] ==> After(s, es) == s
    ensures es != [] ==>
              var before := es[..|es| - 1];
              Runs(s, before) && Enabled(After(s, before), es[|es| - 1])
              && After(s, es) == Apply(After(s, before), es[|es| - 1])
  {
  }

  lemma {:induction false} HandedMore(s: State, es: seq<Event>, h: nat, i: int)
    requires Runs(s, es) && es != [] && Runs(s, es[..|es| - 1])
    requires HandedAt(s, es[..|es| - 1], h, i)
    requires 0 <= i < |After(s, es).tasks| && PendingFor(After(s, es).tasks[i], es[h].pid)
    ensures HandedAt(s, es, h, i) && es[..|es| - 1][..h] == es[..h]
  {
    hide After, Runs;
    var n := |es| - 1;
    var before := es[..n];
    assert before[..h] == es[..h] && before[h] == es[h];
    forall j | h < j <= |es| ensures HeldAt(s, es, j, i, es[h].pid) {
      if j <= n {
        assert HeldAt(s, before, j, i, es[h].pid) && before[..j] == es[..j];
      } else {
        assert es[..j] == es;
      }
    }
  }

  lemma {:induction false} HandedNow(s: State, es: seq<Event>, i: int)
    requires Runs(s, es) && es != [] && Runs(s, es[..|es| - 1]) && es[|es| - 1].GetTask?
    requires 0 <= i < |After(s, es[..|es| - 1]).tasks| && Free(After(s, es[..|es| - 1]).tasks[i])
    requires 0 <= i < |After(s, es).tasks| && PendingFor(After(s, es).tasks[i], es[|es| - 1].pid)
    ensures HandedAt(s, es, |es| - 1, i)
  {
    hide After, Runs;
    assert es[..|es|] == es;
  }

  /** The parent, or the child `pid`. */
  datatype Who = Parent | ChildOf(pid: int)

  function ReadBy(who: Who): Event { if who.Parent? then ParentReadClock else ReadClock(who.pid) }

  function SweepBy(who: Who): Event { if who.Parent? then ParentSweep else Sweep(who.pid) }

  predicate LatestRead(es: seq<Event>, k: int, who: Who) {
    0 <= k < |es| && es[k] == ReadBy(who) && forall c :: k < c < |es| ==> es[c] != ReadBy(who)
  }

  function ClockOf(s: State, who: Who): Option<int> {
    if who.Parent? then s.parentClock
    else if who.pid in s.children then s.children[who.pid].clock
    else None
  }

  lemma {:induction false} ClockStep(s: State, e: Event, who: Who)
    requires Enabled(s, e) && ClockOf(Apply(s, e), who).Some?
    ensures ClockOf(Apply(s, e), who) == if e == ReadBy(who) then Some(s.now) else ClockOf(s, who)
  {
    hide HandOut, Credit, Release, Expire, Reply, Target, AllCompleted;
  }

  lemma {:induction false} ClockSince(texts: seq<string>, now: int, es: seq<Event>, who: Who) returns (k: nat)
    requires Runs(Init(texts, now), es) && ClockOf(After(Init(texts, now), es), who).Some?
    ensures LatestRead(es, k, who) && Runs(Init(texts, now), es[..k])
    ensures ClockOf(After(Init(texts, now), es), who) == Some(After(Init(texts, now), es[..k]).now)
    decreases |es|
  {
    var s0 := Init(texts, now);
    StepFromBefore(s0, es);
    NoClocks(texts, now, who);
    var before, e := es[..|es| - 1], es[|es| - 1];
    hide After, Runs, Apply, Enabled, ReadBy, LatestRead, ClockOf, Init;
    ClockStep(After(s0, before), e, who);
    if e == ReadBy(who) {
      k := |es| - 1;
      ReadNow(es, who);
    } else {
      k := ClockSince(texts, now, before, who);
      ReadMore(es, k, who);
    }
  }

  lemma {:induction false} NoClocks(texts: seq<string>, now: int, who: Who)
    ensures ClockOf(Init(texts, now), who).None?
  {
  }

  lemma {:induction false} ReadNow(es: seq<Event>, who: Who)
    requires es != [] && es[|es| - 1] == ReadBy(who)
    ensures LatestRead(es, |es| - 1, who)
  {
  }

  lemma {:induction false} ReadMore(es: seq<Event>, k: nat, who: Who)
    requires es != [] && es[|es| - 1] != ReadBy(who) && LatestRead(es[..|es| - 1], k, who)
    ensures LatestRead(es, k, who) && k < |es| && es[..|es| - 1][..k] == es[..k]
  {
    assert forall c :: 0 <= c < |es| - 1 ==> es[..|es| - 1][c] == es[c];
  }

  /** A sweep by anyone takes back exactly the pending tasks handed out more than
      30 s, by the clock at hand-out, before the time the sweeper last read; how
      often a task was sent again in between makes no difference. */
  lemma {:induction false} SweepExactly(texts: seq<string>, now: int, es: seq<Event>, who: Who, i: int)
    returns (h: nat, k: nat)
    requires Runs(Init(texts, now), es) && Enabled(After(Init(texts, now), es), SweepBy(who))
    requires 0 <= i < |texts| == |After(Init(texts, now), es).tasks| && Pending(After(Init(texts, now), es).tasks[i])
    ensures HandedAt(Init(texts, now), es, h, i) && LatestRead(es, k, who) && Runs(Init(texts, now), es[..k])
    ensures var s := After(Init(texts, now), es);
      var t := Apply(s, SweepBy(who));
      && |t.tasks| == |s.tasks|
      && if After(Init(texts, now), es[..k]).now - After(Init(texts, now), es[..h]).now > 30
         then Free(t.tasks[i]) else t.tasks[i] == s.tasks[i]
  {
    h := HandedSince(texts, now, es, i);
    k := ClockSince(texts, now, es, who);
  }

  /** A task keeps its number and its text. */
  lemma {:induction false} TextsStay(texts: seq<string>, now: int, es: seq<Event>)
    requires Runs(Init(texts, now), es)
    ensures |After(Init(texts, now), es).tasks| == |texts|
    ensures forall i :: 0 <= i < |texts| ==> After(Init(texts, now), es).tasks[i].text == texts[i]
    decreases |es|
  {
    if es != [] {
      TextsStay(texts, now, es[..|es| - 1]);
      StepKeeps(After(Init(texts, now), es[..|es| - 1]), es[|es| - 1]);
    }
  }
}
