/** The server's shared memory and processes, changed in place. Each method is
    one critical section or one private act of a process, with the scan loops
    of the code; `View` is the state of the transition system. */
module TaskServer {
  import opened Options
  import opened TaskQueue
  import opened TaskQueueRuns

  class Server {
    const queue: array<Task>
    var allTasksCompleted: bool
    var activeClients: int
    var children: map<int, Child>   // the child processes, each with its own variables
    var counted: bool
    var parentClock: Option<int>
    var now: int
    ghost var swept: int

    ghost function View(): State
      reads this, queue
    {
      State(queue[..], allTasksCompleted, activeClients, children, counted, parentClock, now, swept)
    }

    constructor (texts: seq<string>, start: int)
      ensures View() == Init(texts, start) && fresh(queue)
    {
      queue := new Task[|texts|](i requires 0 <= i < |texts| => Task(texts[i], false, false, 0, 0));
      allTasksCompleted, activeClients := false, 0;
      children, counted, parentClock := map[], false, None;
      now, swept := start, start;
      new;
      assert queue[..] == Load(texts);
    }

    // ----- scans -----

    method CheckAllCompleted() returns (all: bool)
      ensures all == AllCompleted(queue[..])
    {
      var i := 0;
      while i < queue.Length
        invariant 0 <= i <= queue.Length
        invariant forall j :: 0 <= j < i ==> queue[j].isCompleted
      {
        if !queue[i].isCompleted {
          assert !queue[..][i].isCompleted;
          return false;
        }
        i := i + 1;
      }
      return true;
    }

    method GetNextTaskIndex() returns (k: int)
      ensures k == if FirstFree(queue[..]) < queue.Length then FirstFree(queue[..]) else -1
    {
      var i := 0;
      while i < queue.Length
        invariant 0 <= i <= queue.Length
        invariant forall j :: 0 <= j < i ==> !Free(queue[j])
      {
        if !queue[i].isAssigned && !queue[i].isCompleted {
          FirstFreeIs(queue[..], i);
          return i;
        }
        i := i + 1;
      }
      FirstFreeIs(queue[..], queue.Length);
      return -1;
    }

    method FindPending(pid: int) returns (k: int)
      ensures k == if FirstPending(queue[..], pid) < queue.Length then FirstPending(queue[..], pid) else -1
    {
      var i := 0;
      while i < queue.Length
        invariant 0 <= i <= queue.Length
        invariant forall j :: 0 <= j < i ==> !PendingFor(queue[j], pid)
      {
        if queue[i].isAssigned && queue[i].assignedTo == pid && !queue[i].isCompleted {
          FirstPendingIs(queue[..], pid, i);
          return i;
        }
        i := i + 1;
      }
      FirstPendingIs(queue[..], pid, queue.Length);
      return -1;
    }

    /** The loop shared by `exit`, disconnection and reaping. */
    method ReleaseTasks(pid: int)
      modifies queue
      ensures queue[..] == Release(old(queue[..]), pid)
    {
      var i := 0;
      while i < queue.Length
        invariant 0 <= i <= queue.Length
        invariant forall j :: 0 <= j < i ==> queue[j] == ReleaseOne(old(queue[j]), pid)
        invariant forall j :: i <= j < queue.Length ==> queue[j] == old(queue[j])
      {
        if queue[i].isAssigned && queue[i].assignedTo == pid && !queue[i].isCompleted {
          queue[i] := queue[i].(isAssigned := false, assignedTo := 0);
        }
        i := i + 1;
      }
    }

    method CheckTaskTimeouts(clock: int)
      modifies queue
      ensures queue[..] == Expire(old(queue[..]), clock)
    {
      var i := 0;
      while i < queue.Length
        invariant 0 <= i <= queue.Length
        invariant forall j :: 0 <= j < i ==> queue[j] == ExpireOne(old(queue[j]), clock)
        invariant forall j :: i <= j < queue.Length ==> queue[j] == old(queue[j])
      {
        if queue[i].isAssigned && !queue[i].isCompleted {
          if clock - queue[i].assignedAt > TIMEOUT_SECONDS {
            queue[i] := queue[i].(isAssigned := false, assignedTo := 0);
          }
        }
        i := i + 1;
      }
    }

    // ----- requests of a client -----

    /** GET_TASK. `answer` is the index sent, -1 for "No tasks available"; a
        failed send ends the child with the assignment in place. */
    method HandleGetTask(pid: int, sent: bool) returns (answer: int)
      requires Enabled(View(), GetTask(pid, sent))
      modifies this`children, queue
      ensures View() == Apply(old(View()), GetTask(pid, sent))
      ensures answer == (var r := Reply(old(queue[..]), pid); if r.Some? then r.value else -1)
    {
      var c := children[pid];
      var taskIndex := FindPending(pid);
      if taskIndex < 0 {
        taskIndex := GetNextTaskIndex();
        if taskIndex >= 0 {
          queue[taskIndex] := Task(queue[taskIndex].text, true, queue[taskIndex].isCompleted, pid, now);
        }
      }
      var handed := if taskIndex >= 0 then c.handed + {taskIndex} else c.handed;
      children := children[pid := Child(sent, taskIndex, c.clock, handed)];
      return taskIndex;
    }

    /** RESULT. */
    method HandleResult(pid: int)
      requires Enabled(View(), Finish(pid))
      requires Remembered(View())
      modifies this`children, this`allTasksCompleted, queue
      ensures View() == Apply(old(View()), Finish(pid))
    {
      var c := children[pid];
      var taskIndex := c.taskIndex;
      var pending := FindPending(pid);
      if pending >= 0 { taskIndex := pending; }
      if taskIndex >= 0 {
        queue[taskIndex] := queue[taskIndex].(isCompleted := true);
        var all := CheckAllCompleted();
        if all { allTasksCompleted := true; }
      }
      children := children[pid := Child(true, taskIndex, c.clock, c.handed)];
    }

    /** `exit`, and a closed connection. */
    method HandleLeave(pid: int)
      requires Enabled(View(), Leave(pid))
      modifies this`children, queue
      ensures View() == Apply(old(View()), Leave(pid))
    {
      ReleaseTasks(pid);
      children := children[pid := children[pid].(running := false)];
    }

    /** Idle timeout or a read error: the child exits and releases nothing. */
    method ChildDies(pid: int)
      requires Enabled(View(), Die(pid))
      modifies this`children
      ensures View() == Apply(old(View()), Die(pid))
    {
      children := children[pid := children[pid].(running := false)];
    }

    // ----- sweeps -----

    method ChildReadsClock(pid: int)
      requires Enabled(View(), ReadClock(pid))
      modifies this`children
      ensures View() == Apply(old(View()), ReadClock(pid))
    {
      children := children[pid := children[pid].(clock := Some(now))];
    }

    method ChildSweeps(pid: int)
      requires Enabled(View(), Sweep(pid))
      modifies this`children, this`swept, queue
      ensures View() == Apply(old(View()), Sweep(pid))
    {
      var clock := children[pid].clock.value;
      CheckTaskTimeouts(clock);
      swept := Max(swept, clock);
      children := children[pid := children[pid].(clock := None)];
    }

    method ParentReadsClock()
      requires Enabled(View(), ParentReadClock)
      modifies this`parentClock
      ensures View() == Apply(old(View()), ParentReadClock)
    {
      parentClock := Some(now);
    }

    method ParentSweeps()
      requires Enabled(View(), ParentSweep)
      modifies this`parentClock, this`swept, queue
      ensures View() == Apply(old(View()), ParentSweep)
    {
      CheckTaskTimeouts(parentClock.value);
      swept := Max(swept, parentClock.value);
      parentClock := None;
    }

    // ----- the parent -----

    method CountConnection()
      requires Enabled(View(), Accept)
      modifies this`activeClients, this`counted
      ensures View() == Apply(old(View()), Accept)
    {
      activeClients := activeClients + 1;
      counted := true;
    }

    /** `fork`: -1 is failure, any other value the new child. */
    method ForkChild(pid: int)
      requires Enabled(View(), if pid < 0 then ForkFailed else Fork(pid))
      modifies this`activeClients, this`counted, this`children
      ensures View() == Apply(old(View()), if pid < 0 then ForkFailed else Fork(pid))
    {
      counted := false;
      if pid < 0 {
        activeClients := activeClients - 1;
      } else {
        children := children[pid := Child(true, -1, None, {})];
      }
    }

    /** One turn of the loop in the SIGCHLD handler. */
    method ReapChild(pid: int)
      requires Enabled(View(), Reap(pid))
      modifies this`activeClients, this`children, queue
      ensures View() == Apply(old(View()), Reap(pid))
    {
      activeClients := activeClients - 1;
      ReleaseTasks(pid);
      children := children - {pid};
    }

    /** The test that ends the parent's loop. */
    method ShouldStop() returns (stop: bool)
      requires Inv(View()) && !counted
      ensures stop <==> queue.Length > 0 && AllCompleted(queue[..]) && children == map[]
    {
      stop := allTasksCompleted && activeClients == 0;
    }

    method Step(e: Event)
      requires Inv(View()) && Enabled(View(), e)
      modifies this, queue
      ensures View() == Apply(old(View()), e)
    {
      match e
      case Tick(time) => now := time;
      case Accept => CountConnection();
      case Fork(pid) => ForkChild(pid);
      case ForkFailed => ForkChild(-1);
      case GetTask(pid, sent) => var _ := HandleGetTask(pid, sent);
      case Finish(pid) => HandleResult(pid);
      case Leave(pid) => HandleLeave(pid);
      case Die(pid) => ChildDies(pid);
      case ReadClock(pid) => ChildReadsClock(pid);
      case Sweep(pid) => ChildSweeps(pid);
      case ParentReadClock => ParentReadsClock();
      case ParentSweep => ParentSweeps();
      case Reap(pid) => ReapChild(pid);
    }

    /** The parent's loop among everything its children do: it looks at the
        flag and the counter after each of its own sweeps. */
    method Serve(schedule: seq<Event>) returns (used: nat, stopped: bool)
      requires Inv(View()) && Runs(View(), schedule)
      modifies this, queue
      ensures used <= |schedule| && Runs(old(View()), schedule[..used])
      ensures View() == After(old(View()), schedule[..used])
      ensures stopped ==> queue.Length > 0 && AllCompleted(queue[..]) && children == map[]
      ensures !stopped ==> used == |schedule|
    {
      hide Inv, Runs, After, Apply, Enabled;
      ghost var s0 := View();
      used := 0;
      RunStart(s0);
      assert schedule[..0] == [];
      while used < |schedule|
        invariant used <= |schedule| && Inv(View())
        invariant Runs(s0, schedule[..used]) && View() == After(s0, schedule[..used])
      {
        var e := schedule[used];
        RunPoint(s0, schedule, used);
        StepInv(View(), e);
        Step(e);
        used := used + 1;
        if e.ParentSweep? {
          NotCounted(s0, schedule, used - 1);
          stopped := ShouldStop();
          if stopped { return; }
        }
      }
      stopped := false;
      assert schedule[..used] == schedule;
    }
  }

  lemma {:induction false} FirstFreeIs(ts: seq<Task>, k: nat)
    requires k <= |ts| && (k < |ts| ==> Free(ts[k])) && forall i :: 0 <= i < k ==> !Free(ts[i])
    ensures FirstFree(ts) == k
  {
  }

  lemma {:induction false} FirstPendingIs(ts: seq<Task>, pid: int, k: nat)
    requires k <= |ts| && (k < |ts| ==> PendingFor(ts[k], pid)) && forall i :: 0 <= i < k ==> !PendingFor(ts[i], pid)
    ensures FirstPending(ts, pid) == k
  {
  }
}
