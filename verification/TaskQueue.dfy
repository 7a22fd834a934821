/** The task-queue server as a transition system. One step is one critical
    section of the parent or of a child, or something a process does on its own
    between critical sections: reading the clock, dying, being forked. */
module TaskQueue {
  import opened Options

  const TIMEOUT_SECONDS := 30

  datatype Task = Task(text: string, isAssigned: bool, isCompleted: bool, assignedTo: int, assignedAt: int)

  /** A child process that has not been reaped. `taskIndex` is the variable that
      survives from one request to the next; `clock` is the time read before
      the lock of a sweep; `handed` remembers the tasks sent to its client. */
  datatype Child = Child(running: bool, taskIndex: int, clock: Option<int>, handed: set<int>)

  /** `counted` marks a connection counted but not yet forked; `swept` is the
      latest clock any sweep has used. */
  datatype State = State(
    tasks: seq<Task>, flag: bool, active: int,
    children: map<int, Child>, counted: bool, parentClock: Option<int>,
    now: int, swept: int)

  datatype Event =
    | Tick(time: int)
    | Accept
    | Fork(pid: int)
    | ForkFailed
    | GetTask(pid: int, sent: bool)
    | Finish(pid: int)
    | Leave(pid: int)
    | Die(pid: int)
    | ReadClock(pid: int)
    | Sweep(pid: int)
    | ParentReadClock
    | ParentSweep
    | Reap(pid: int)

  // ---------- the queue ----------

  predicate Pending(t: Task) { t.isAssigned && !t.isCompleted }

  predicate PendingFor(t: Task, pid: int) { Pending(t) && t.assignedTo == pid }

  predicate Free(t: Task) { !t.isAssigned && !t.isCompleted }

  function FirstPending(ts: seq<Task>, pid: int): (k: nat)
    ensures k <= |ts|
    ensures k < |ts| ==> PendingFor(ts[k], pid)
    ensures forall i :: 0 <= i < k ==> !PendingFor(ts[i], pid)
  {
    if ts == [] || PendingFor(ts[0], pid) then 0 else 1 + FirstPending(ts[1..], pid)
  }

  function FirstFree(ts: seq<Task>): (k: nat)
    ensures k <= |ts|
    ensures k < |ts| ==> Free(ts[k])
    ensures forall i :: 0 <= i < k ==> !Free(ts[i])
  {
    if ts == [] || Free(ts[0]) then 0 else 1 + FirstFree(ts[1..])
  }

  predicate AllCompleted(ts: seq<Task>) { forall i :: 0 <= i < |ts| ==> ts[i].isCompleted }

  function Unassign(t: Task): Task { Task(t.text, false, t.isCompleted, 0, t.assignedAt) }

  function Assign(t: Task, pid: int, now: int): Task { Task(t.text, true, t.isCompleted, pid, now) }

  function Complete(t: Task): Task { Task(t.text, t.isAssigned, true, t.assignedTo, t.assignedAt) }

  function ReleaseOne(t: Task, pid: int): Task { if PendingFor(t, pid) then Unassign(t) else t }

  function Release(ts: seq<Task>, pid: int): seq<Task> {
    seq(|ts|, i requires 0 <= i < |ts| => ReleaseOne(ts[i], pid))
  }

  predicate Expired(t: Task, clock: int) { Pending(t) && clock - t.assignedAt > TIMEOUT_SECONDS }

  function ExpireOne(t: Task, clock: int): Task { if Expired(t, clock) then Unassign(t) else t }

  function Expire(ts: seq<Task>, clock: int): seq<Task> {
    seq(|ts|, i requires 0 <= i < |ts| => ExpireOne(ts[i], clock))
  }

  /** The task a GET_TASK is answered with. */
  function Reply(ts: seq<Task>, pid: int): Option<nat> {
    var k := FirstPending(ts, pid);
    if k < |ts| then Some(k)
    else if FirstFree(ts) < |ts| then Some(FirstFree(ts))
    else None
  }

  function HandOut(ts: seq<Task>, pid: int, now: int): seq<Task> {
    var k := FirstFree(ts);
    if FirstPending(ts, pid) < |ts| || k == |ts| then ts
    else ts[k := Assign(ts[k], pid, now)]
  }

  /** The task a RESULT is credited to: the pending one, else the remembered one. */
  function Target(ts: seq<Task>, pid: int, remembered: int): int {
    var k := FirstPending(ts, pid);
    if k < |ts| then k else remembered
  }

  function Credit(ts: seq<Task>, k: int): seq<Task> {
    if 0 <= k < |ts| then ts[k := Complete(ts[k])] else ts
  }

  // ---------- steps ----------

  predicate Running(s: State, pid: int) { pid in s.children && s.children[pid].running }

  predicate Enabled(s: State, e: Event) {
    match e
    case Tick(time) => time >= s.now
    case Accept => !s.counted && s.parentClock.None?
    case Fork(pid) => s.counted && pid !in s.children && pid > 0
    case ForkFailed => s.counted
    case GetTask(pid, _) => Running(s, pid)
    case Finish(pid) => Running(s, pid)
    case Leave(pid) => Running(s, pid)
    case Die(pid) => Running(s, pid)
    case ReadClock(pid) => Running(s, pid)
    case Sweep(pid) => Running(s, pid) && s.children[pid].clock.Some?
    case ParentReadClock => !s.counted
    case ParentSweep => !s.counted && s.parentClock.Some?
    case Reap(pid) => pid in s.children && !s.children[pid].running
  }

  function Max(a: int, b: int): int { if a < b then b else a }

  function ChildAfterGet(c: Child, ts: seq<Task>, pid: int, sent: bool): Child {
    var r := Reply(ts, pid);
    Child(sent, if r.Some? then r.value else -1, c.clock,
          if r.Some? then c.handed + {r.value} else c.handed)
  }

  function TasksAfter(s: State, e: Event): seq<Task>
    requires Enabled(s, e)
  {
    match e
    case GetTask(pid, _) => HandOut(s.tasks, pid, s.now)
    case Finish(pid) => Credit(s.tasks, Target(s.tasks, pid, s.children[pid].taskIndex))
    case Leave(pid) => Release(s.tasks, pid)
    case Sweep(pid) => Expire(s.tasks, s.children[pid].clock.value)
    case ParentSweep => Expire(s.tasks, s.parentClock.value)
    case Reap(pid) => Release(s.tasks, pid)
    case _ => s.tasks
  }

  function ChildrenAfter(s: State, e: Event): map<int, Child>
    requires Enabled(s, e)
  {
    match e
    case Fork(pid) => s.children[pid := Child(true, -1, None, {})]
    case GetTask(pid, sent) => s.children[pid := ChildAfterGet(s.children[pid], s.tasks, pid, sent)]
    case Finish(pid) =>
      var c := s.children[pid];
      s.children[pid := Child(true, Target(s.tasks, pid, c.taskIndex), c.clock, c.handed)]
    case Leave(pid) => Stop(s.children, pid)
    case Die(pid) => Stop(s.children, pid)
    case ReadClock(pid) => SetClock(s.children, pid, Some(s.now))
    case Sweep(pid) => SetClock(s.children, pid, None)
    case Reap(pid) => s.children - {pid}
    case _ => s.children
  }

  function Stop(cs: map<int, Child>, pid: int): map<int, Child>
    requires pid in cs
  {
    cs[pid := Child(false, cs[pid].taskIndex, cs[pid].clock, cs[pid].handed)]
  }

  function SetClock(cs: map<int, Child>, pid: int, clock: Option<int>): map<int, Child>
    requires pid in cs
  {
    cs[pid := Child(cs[pid].running, cs[pid].taskIndex, clock, cs[pid].handed)]
  }

  function FlagAfter(s: State, e: Event): bool
    requires Enabled(s, e)
  {
    if e.Finish? then
      var k := Target(s.tasks, e.pid, s.children[e.pid].taskIndex);
      s.flag || (k >= 0 && AllCompleted(Credit(s.tasks, k)))
    else s.flag
  }

  function ActiveAfter(s: State, e: Event): int {
    if e.Accept? then s.active + 1
    else if e.ForkFailed? || e.Reap? then s.active - 1
    else s.active
  }

  function SweptAfter(s: State, e: Event): int
    requires Enabled(s, e)
  {
    match e
    case Sweep(pid) => Max(s.swept, s.children[pid].clock.value)
    case ParentSweep => Max(s.swept, s.parentClock.value)
    case _ => s.swept
  }

  function Apply(s: State, e: Event): State
    requires Enabled(s, e)
  {
    State(TasksAfter(s, e), FlagAfter(s, e), ActiveAfter(s, e), ChildrenAfter(s, e),
          if e.Accept? then true else if e.Fork? || e.ForkFailed? then false else s.counted,
          if e.ParentReadClock? then Some(s.now) else if e.ParentSweep? then None else s.parentClock,
          if e.Tick? then e.time else s.now,
          SweptAfter(s, e))
  }

  function Load(texts: seq<string>): seq<Task> {
    seq(|texts|, i requires 0 <= i < |texts| => Task(texts[i], false, false, 0, 0))
  }

  function Init(texts: seq<string>, now: int): State {
    State(Load(texts), false, 0, map[], false, None, now, now)
  }

  predicate Runs(s: State, es: seq<Event>)
    decreases |es|, 0
  {
    es == [] || (Runs(s, es[..|es| - 1]) && Enabled(After(s, es[..|es| - 1]), es[|es| - 1]))
  }

  function After(s: State, es: seq<Event>): State
    requires Runs(s, es)
    decreases |es|, 1
  {
    if es == [] then s else Apply(After(s, es[..|es| - 1]), es[|es| - 1])
  }

  // ---------- the abstract queue ----------

  /** Every unfinished task is free or has one holder; the rest are done. */
  datatype Abstract = Abstract(pool: set<nat>, holder: map<nat, int>, done: set<nat>)

  function Abs(ts: seq<Task>): Abstract {
    Abstract(set i | 0 <= i < |ts| && Free(ts[i]),
             map i: nat | i < |ts| && Pending(ts[i]) :: ts[i].assignedTo,
             set i | 0 <= i < |ts| && ts[i].isCompleted)
  }

  ghost predicate Consistent(a: Abstract, n: nat) {
    && a.pool !! a.holder.Keys && a.pool !! a.done && a.holder.Keys !! a.done
    && (forall i: nat :: i < n <==> i in a.pool || i in a.holder || i in a.done)
    && (forall i, j :: i in a.holder && j in a.holder && i != j ==> a.holder[i] != a.holder[j])
  }

  ghost predicate Holds(a: Abstract, client: int, i: nat) { i in a.holder && a.holder[i] == client }

  /** GET_TASK: the held task again, else the lowest free one, else nothing. */
  ghost predicate AbstractGet(a: Abstract, client: int, reply: Option<nat>, b: Abstract) {
    if reply.None? then
      b == a && a.pool == {} && forall i :: !Holds(a, client, i)
    else
      || (Holds(a, client, reply.value) && b == a)
      || (&& (forall i :: !Holds(a, client, i))
          && reply.value in a.pool && (forall i :: i in a.pool ==> reply.value <= i)
          && b == Abstract(a.pool - {reply.value}, a.holder[reply.value := client], a.done))
  }

  /** RESULT: task `k` is done, whoever held it and whether or not it was free. */
  function AbstractFinish(a: Abstract, k: nat): Abstract {
    Abstract(a.pool - {k}, a.holder - {k}, a.done + {k})
  }

  /** Tasks `back` return to the pool. */
  function AbstractReturn(a: Abstract, back: set<nat>): Abstract {
    Abstract(a.pool + back, a.holder - back, a.done)
  }

  predicate OneEach(ts: seq<Task>) {
    forall i, j :: 0 <= i < j < |ts| && Pending(ts[i]) && Pending(ts[j]) ==> ts[i].assignedTo != ts[j].assignedTo
  }

  lemma {:induction false} AbsConsistent(ts: seq<Task>)
    requires OneEach(ts)
    ensures Consistent(Abs(ts), |ts|)
  {
  }

  lemma {:induction false} GetRefines(ts: seq<Task>, pid: int, now: int)
    requires OneEach(ts)
    ensures OneEach(HandOut(ts, pid, now))
    ensures AbstractGet(Abs(ts), pid, Reply(ts, pid), Abs(HandOut(ts, pid, now)))
  {
    var p, k := FirstPending(ts, pid), FirstFree(ts);
    if p < |ts| {
      assert Holds(Abs(ts), pid, p);
    } else {
      forall i: nat ensures !Holds(Abs(ts), pid, i) {
        if i in Abs(ts).holder { assert !PendingFor(ts[i], pid); }
      }
      if k < |ts| {
        var us := HandOut(ts, pid, now);
        assert Abs(us).pool == Abs(ts).pool - {k};
        assert Abs(us).holder == Abs(ts).holder[k := pid];
        assert Abs(us).done == Abs(ts).done;
      } else {
        assert Abs(ts).pool == {};
      }
    }
  }

  lemma {:induction false} FinishRefines(ts: seq<Task>, k: nat)
    requires OneEach(ts) && k < |ts|
    ensures OneEach(Credit(ts, k))
    ensures Abs(Credit(ts, k)) == AbstractFinish(Abs(ts), k)
  {
  }

  lemma {:induction false} ReleaseRefines(ts: seq<Task>, pid: int)
    requires OneEach(ts)
    ensures OneEach(Release(ts, pid))
    ensures Abs(Release(ts, pid)) == AbstractReturn(Abs(ts), set i | i in Abs(ts).holder && Abs(ts).holder[i] == pid)
  {
  }

  lemma {:induction false} ExpireRefines(ts: seq<Task>, clock: int)
    requires OneEach(ts)
    ensures OneEach(Expire(ts, clock))
    ensures Abs(Expire(ts, clock))
         == AbstractReturn(Abs(ts), set i: nat | i < |ts| && Expired(ts[i], clock))
  {
  }
}
