/** The round-robin scheduler: its ring of tasks, its steps, and what every run of them keeps. */
module SchedModel {
  import opened Machine

  datatype TaskState = Running | Ready | Suspended

  /** A process control block; the ring order is the order of the sequence that holds it. */
  datatype Task = Task(
    pid: u32, state: TaskState, pageDirectory: u32, kstack: u32, kstackTop: u32, ustack: u32)

  /** All tasks in ring order from the head of the queue, and the index of the current one. */
  datatype Sched = Sched(tasks: seq<Task>, cur: nat, nextPid: u32)

  // ----- interrupt frames

  /** The words iret and the interrupt stub expect, from the saved stack pointer upwards. */
  datatype Frame = Frame(
    gs: u32, fs: u32, es: u32, ds: u32,
    edi: u32, esi: u32, ebp: u32, espDummy: u32, ebx: u32, edx: u32, ecx: u32, eax: u32,
    eip: u32, cs: u32, eflags: u32)

  function ReadFrame(words: seq<u32>): Frame
    requires |words| >= 15
  {
    Frame(words[0], words[1], words[2], words[3],
          words[4], words[5], words[6], words[7], words[8], words[9], words[10], words[11],
          words[12], words[13], words[14])
  }

  /** What a new task must resume with: its entry point, zeroed registers, the selectors of its ring. */
  predicate StartsAt(words: seq<u32>, entry: u32, isUser: bool, userEsp: u32) {
    |words| == (if isUser then 17 else 15)
    && var f := ReadFrame(words);
       var data := if isUser then 0x23 else 0x10;
       f.eip == entry && f.eflags == 0x202 && f.cs == (if isUser then 0x1B else 0x08)
       && f.gs == f.fs == f.es == f.ds == data
       && f.edi == f.esi == f.ebp == f.espDummy == f.ebx == f.edx == f.ecx == f.eax == 0
       && (isUser ==> words[15] == userEsp && words[16] == 0x23)
  }

  // ----- steps

  predicate Runnable(t: Task) {
    t.state == Ready || t.state == Running
  }

  /** The ring position d steps after i, for 0 <= d <= n. */
  function Around(n: nat, i: nat, d: nat): (r: nat)
    requires i < n && d <= n
    ensures r < n
  {
    if i + d < n then i + d else i + d - n
  }

  /** The search of task_switch: the first runnable task at distance d or more, the current one after a full round. */
  function Pick(ts: seq<Task>, cur: nat, d: nat): (r: nat)
    requires cur < |ts| && d <= |ts|
    ensures r < |ts|
    decreases |ts| - d
  {
    if d == |ts| then cur
    else if Runnable(ts[Around(|ts|, cur, d)]) then Around(|ts|, cur, d)
    else Pick(ts, cur, d + 1)
  }

  /** task_switch: save esp, pick, demote, promote. */
  function Switch(s: Sched, esp: u32): (r: Sched)
    requires s.cur < |s.tasks|
    ensures |r.tasks| == |s.tasks| && r.cur < |r.tasks|
  {
    var saved := s.tasks[s.cur := s.tasks[s.cur].(kstack := esp)];
    var next := Pick(saved, s.cur, 1);
    var demoted := if saved[s.cur].state == Running then saved[s.cur := saved[s.cur].(state := Ready)] else saved;
    s.(tasks := demoted[next := demoted[next].(state := Running)], cur := next)
  }

  /** The stack pointer task_switch returns: that of the task it dispatches. */
  function Resumed(s: Sched): u32
    requires s.cur < |s.tasks|
  {
    s.tasks[s.cur].kstack
  }

  datatype Step =
    | Tick(esp: u32)                 // timer interrupt
    | Syscall(number: u32, esp: u32) // 1 exits, 2 prints, 3 yields, others do nothing
    | Create(block: Task)            // block: the new control block, pid and state set by the scheduler

  predicate Switches(st: Step) {
    st.Tick? || (st.Syscall? && (st.number == 1 || st.number == 3))
  }

  predicate Exits(st: Step) {
    st.Syscall? && st.number == 1
  }

  function NewTask(s: Sched, block: Task): Task {
    block.(pid := s.nextPid, state := Ready)
  }

  function Do(s: Sched, st: Step): (r: Sched)
    requires s.cur < |s.tasks|
    ensures r.cur < |r.tasks| && |r.tasks| == |s.tasks| + (if st.Create? then 1 else 0)
  {
    match st
    case Tick(esp) => Switch(s, esp)
    case Syscall(number, esp) =>
      if number == 1 then Switch(s.(tasks := s.tasks[s.cur := s.tasks[s.cur].(state := Suspended)]), esp)
      else if number == 3 then Switch(s, esp)
      else s
    case Create(block) => s.(tasks := s.tasks + [NewTask(s, block)], nextPid := Wrap32(s.nextPid + 1))
  }

  // ----- the invariant

  /** Exactly one task is RUNNING, and it is the current one. */
  ghost predicate Inv(s: Sched) {
    s.cur < |s.tasks|
    && forall i :: 0 <= i < |s.tasks| ==> (s.tasks[i].state == Running <==> i == s.cur)
  }

  /** The distance from i forward to j around the ring; a task is a full round away from itself. */
  function Distance(n: nat, i: nat, j: nat): (d: nat)
    requires i < n && j < n
    ensures 1 <= d <= n && Around(n, i, d) == j
  {
    if i < j then j - i else n + j - i
  }

  /** The search stops at the nearest runnable task. */
  lemma {:induction false} PickIsNearest(ts: seq<Task>, cur: nat, d: nat, j: nat)
    requires cur < |ts| && j < |ts| && 1 <= d <= Distance(|ts|, cur, j) && Runnable(ts[j])
    ensures d <= Distance(|ts|, cur, Pick(ts, cur, d)) <= Distance(|ts|, cur, j)
    ensures Pick(ts, cur, d) == cur || Runnable(ts[Pick(ts, cur, d)])
    decreases |ts| - d
  {
    if d < |ts| && !Runnable(ts[Around(|ts|, cur, d)]) {
      PickIsNearest(ts, cur, d + 1, j);
    }
  }

  /** With nothing else runnable the search comes back to the current task. */
  lemma {:induction false} PickComesBack(ts: seq<Task>, cur: nat, d: nat)
    requires cur < |ts| && 1 <= d <= |ts|
    requires forall i :: 0 <= i < |ts| && i != cur ==> !Runnable(ts[i])
    ensures Pick(ts, cur, d) == cur
    decreases |ts| - d
  {
    if d < |ts| {
      PickComesBack(ts, cur, d + 1);
    }
  }

  /** The search ends at a runnable task, or back at the current one. */
  lemma {:induction false} PickIsRunnable(ts: seq<Task>, cur: nat, d: nat)
    requires cur < |ts| && 1 <= d <= |ts|
    ensures Pick(ts, cur, d) == cur || Runnable(ts[Pick(ts, cur, d)])
    decreases |ts| - d
  {
    if d < |ts| {
      PickIsRunnable(ts, cur, d + 1);
    }
  }

  /** A switch from a task that has just exited, or still runs. */
  lemma SwitchKeeps(s: Sched, esp: u32)
    requires s.cur < |s.tasks|
    requires forall i :: 0 <= i < |s.tasks| && i != s.cur ==> s.tasks[i].state != Running
    ensures Inv(Switch(s, esp))
    ensures forall i :: 0 <= i < |s.tasks| && i != Switch(s, esp).cur && i != s.cur ==>
      Switch(s, esp).tasks[i] == s.tasks[i]
    ensures Switch(s, esp).cur == s.cur || s.tasks[Switch(s, esp).cur].state == Ready
  {
    PickIsRunnable(s.tasks[s.cur := s.tasks[s.cur].(kstack := esp)], s.cur, 1);
  }

  /** Every step keeps the invariant, whichever task exits. */
  lemma StepKeeps(s: Sched, st: Step)
    requires Inv(s)
    ensures Inv(Do(s, st))
  {
    match st
    case Tick(esp) => SwitchKeeps(s, esp);
    case Syscall(number, esp) =>
      if number == 1 {
        SwitchKeeps(s.(tasks := s.tasks[s.cur := s.tasks[s.cur].(state := Suspended)]), esp);
      } else if number == 3 {
        SwitchKeeps(s, esp);
      }
    case Create(_) =>
  }

  /** Task i has the suspended block t. */
  predicate Asleep(s: Sched, i: nat, t: Task) {
    i < |s.tasks| && s.tasks[i] == t && t.state == Suspended
  }

  /** No step wakes a suspended task: its block stays as it is, and it is not dispatched. */
  lemma SuspendedStays(s: Sched, st: Step, i: nat, t: Task)
    requires Inv(s) && Asleep(s, i, t)
    ensures Asleep(Do(s, st), i, t) && Do(s, st).cur != i
  {
    match st
    case Tick(esp) => SwitchKeeps(s, esp);
    case Syscall(number, esp) =>
      if number == 1 {
        SwitchKeeps(s.(tasks := s.tasks[s.cur := s.tasks[s.cur].(state := Suspended)]), esp);
      } else if number == 3 {
        SwitchKeeps(s, esp);
      }
    case Create(_) =>
  }

  predicate OthersSuspended(s: Sched) {
    forall i :: 0 <= i < |s.tasks| && i != s.cur ==> s.tasks[i].state == Suspended
  }

  /** An exiting task is put straight back to work exactly when every other task is suspended. */
  lemma ExitResurrects(s: Sched, esp: u32)
    requires s.cur < |s.tasks|
    ensures Do(s, Syscall(1, esp)).cur == s.cur
      <==> OthersSuspended(s)
  {
    var out := s.tasks[s.cur := s.tasks[s.cur].(state := Suspended)];
    var saved := out[s.cur := out[s.cur].(kstack := esp)];
    if i :| 0 <= i < |s.tasks| && i != s.cur && s.tasks[i].state != Suspended {
      PickIsNearest(saved, s.cur, 1, i);
    } else {
      PickComesBack(saved, s.cur, 1);
    }
  }

  // ----- runs

  function At(s: Sched, run: seq<Step>, k: nat): (r: Sched)
    requires s.cur < |s.tasks| && k <= |run|
    ensures r.cur < |r.tasks| && |r.tasks| >= |s.tasks|
  {
    if k == 0 then s else Do(At(s, run, k - 1), run[k - 1])
  }

  /** At every point of every run exactly one task is RUNNING, and it is the current one. */
  lemma {:induction false} RunKeeps(s: Sched, run: seq<Step>, k: nat)
    requires Inv(s) && k <= |run|
    ensures Inv(At(s, run, k))
  {
    if k > 0 {
      RunKeeps(s, run, k - 1);
      StepKeeps(At(s, run, k - 1), run[k - 1]);
    }
  }

  lemma OneMoreAsleep(s: Sched, run: seq<Step>, i: nat, t: Task, k: nat, before: Sched)
    requires Inv(s) && k < |run| && before == At(s, run, k) && Asleep(before, i, t)
    ensures Asleep(At(s, run, k + 1), i, t)
  {
    RunKeeps(s, run, k);
    SuspendedStays(before, run[k], i, t);
  }

  lemma {:induction false} StaysAsleep(s: Sched, run: seq<Step>, i: nat, t: Task, from: nat, k: nat)
    requires Inv(s) && from <= k <= |run| && Asleep(At(s, run, from), i, t)
    ensures Asleep(At(s, run, k), i, t)
    decreases k
  {
    if from < k {
      StaysAsleep(s, run, i, t, from, k - 1);
      OneMoreAsleep(s, run, i, t, k - 1, At(s, run, k - 1));
    }
  }

  /** Over a whole run, a task once suspended keeps its block t unchanged and is never dispatched. */
  lemma RunSuspended(s: Sched, run: seq<Step>, i: nat, t: Task, from: nat, k: nat)
    requires Inv(s) && from <= k <= |run| && Asleep(At(s, run, from), i, t)
    ensures Asleep(At(s, run, k), i, t) && At(s, run, k).cur != i
  {
    StaysAsleep(s, run, i, t, from, k);
    RunKeeps(s, run, k);
  }

  /** An exit that does not resurrect leaves the task suspended. */
  lemma ExitSuspends(s: Sched, esp: u32)
    requires Inv(s)
    ensures !OthersSuspended(s) ==> Do(s, Syscall(1, esp)).tasks[s.cur].state == Suspended
  {
    ExitResurrects(s, esp);
  }

  /** The step in which task i exits: it is dispatched at once, or suspended. */
  lemma ExitStep(s: Sched, st: Step, i: nat, after: Sched)
    requires Inv(s) && Exits(st) && i == s.cur && after == Do(s, st)
    ensures after.cur == i <==> OthersSuspended(s)
    ensures !OthersSuspended(s) ==> Asleep(after, i, after.tasks[i])
  {
    assert st == Syscall(1, st.esp);
    ExitResurrects(s, st.esp);
    ExitSuspends(s, st.esp);
  }

  lemma AsleepFrom(s: Sched, run: seq<Step>, i: nat, t: Task, from: nat)
    requires Inv(s) && from <= |run| && Asleep(At(s, run, from), i, t)
    ensures forall k :: from <= k <= |run| ==> At(s, run, k).cur != i
  {
    forall k | from <= k <= |run|
      ensures At(s, run, k).cur != i
    {
      RunSuspended(s, run, i, t, from, k);
    }
  }

  /** A task that exits is never dispatched again, exactly when some other task was not suspended then. */
  lemma ExitIsFinal(s: Sched, run: seq<Step>, m: nat)
    requires Inv(s) && m < |run| && Exits(run[m])
    ensures (forall k :: m < k <= |run| ==> At(s, run, k).cur != At(s, run, m).cur)
      <==> !OthersSuspended(At(s, run, m))
  {
    var now, after := At(s, run, m), At(s, run, m + 1);
    RunKeeps(s, run, m);
    ExitStep(now, run[m], now.cur, after);
    if OthersSuspended(now) {
      assert At(s, run, m + 1).cur == now.cur;
    } else {
      AsleepFrom(s, run, now.cur, after.tasks[now.cur], m + 1);
    }
  }

  // ----- bounded waiting

  function Count(run: seq<Step>, k: nat, creations: bool): nat
    requires k <= |run|
  {
    if k == 0 then 0
    else Count(run, k - 1, creations)
         + (if (if creations then run[k - 1].Create? else Switches(run[k - 1])) then 1 else 0)
  }

  /** One switch that does not dispatch i brings the current task nearer to i, which stays READY. */
  lemma SwitchApproaches(s: Sched, esp: u32, i: nat)
    requires s.cur < |s.tasks| && i < |s.tasks| && i != s.cur && s.tasks[i].state == Ready
    ensures var s' := Switch(s, esp);
      s'.cur == i
      || (s'.tasks[i] == s.tasks[i]
          && Distance(|s.tasks|, s'.cur, i) < Distance(|s.tasks|, s.cur, i))
  {
    var saved := s.tasks[s.cur := s.tasks[s.cur].(kstack := esp)];
    PickIsNearest(saved, s.cur, 1, i);
  }

  lemma StepApproaches(s: Sched, st: Step, i: nat)
    requires s.cur < |s.tasks| && i < |s.tasks| && i != s.cur && s.tasks[i].state == Ready
    ensures var s' := Do(s, st);
      s'.cur == i
      || (s'.tasks[i] == s.tasks[i]
          && Distance(|s'.tasks|, s'.cur, i) + (if Switches(st) then 1 else 0)
             <= Distance(|s.tasks|, s.cur, i) + (if st.Create? then 1 else 0))
  {
    match st
    case Tick(esp) => SwitchApproaches(s, esp, i);
    case Syscall(number, esp) =>
      if number == 1 {
        SwitchApproaches(s.(tasks := s.tasks[s.cur := s.tasks[s.cur].(state := Suspended)]), esp, i);
      } else if number == 3 {
        SwitchApproaches(s, esp, i);
      }
    case Create(_) =>
  }

  /** A READY task at distance d is dispatched within d switches, plus one per task created meanwhile. */
  lemma {:induction false} BoundedWaiting(s: Sched, run: seq<Step>, i: nat, k: nat)
    requires s.cur < |s.tasks| && i < |s.tasks| && i != s.cur && s.tasks[i].state == Ready && k <= |run|
    requires forall m :: 0 <= m <= k ==> At(s, run, m).cur != i
    ensures At(s, run, k).tasks[i] == s.tasks[i]
    ensures Count(run, k, false) + Distance(|At(s, run, k).tasks|, At(s, run, k).cur, i)
         <= Distance(|s.tasks|, s.cur, i) + Count(run, k, true)
  {
    if k > 0 {
      BoundedWaiting(s, run, i, k - 1);
      StepApproaches(At(s, run, k - 1), run[k - 1], i);
    }
  }

  /** ... so a run with that many switches dispatches it. */
  lemma IsDispatched(s: Sched, run: seq<Step>, i: nat)
    requires s.cur < |s.tasks| && i < |s.tasks| && i != s.cur && s.tasks[i].state == Ready
    requires Count(run, |run|, false) >= Distance(|s.tasks|, s.cur, i) + Count(run, |run|, true)
    ensures exists m :: 0 <= m <= |run| && At(s, run, m).cur == i
  {
    if forall m :: 0 <= m <= |run| ==> At(s, run, m).cur != i {
      BoundedWaiting(s, run, i, |run|);
    }
  }

  // ----- what a dispatch resumes

  /** The stack pointer a step leaves for task i, given the one it had: saved, initial, or the same. */
  function AfterStep(before: Sched, st: Step, i: nat, had: u32): u32 {
    if st.Create? && i == |before.tasks| then st.block.kstack
    else if Switches(st) && i == before.cur then st.esp
    else had
  }

  lemma StepSaves(s: Sched, st: Step, i: nat, had: u32)
    requires s.cur < |s.tasks| && i < |Do(s, st).tasks| && (i < |s.tasks| ==> had == s.tasks[i].kstack)
    ensures Do(s, st).tasks[i].kstack == AfterStep(s, st, i, had)
  {
  }

  /** Step m switches out task i. */
  predicate SwitchedOut(s: Sched, run: seq<Step>, m: nat, i: nat)
    requires s.cur < |s.tasks| && m < |run|
  {
    Switches(run[m]) && At(s, run, m).cur == i
  }

  /** From step m up to, and without, step k task i is not switched out. */
  predicate NotSwitchedOut(s: Sched, run: seq<Step>, m: nat, k: nat, i: nat)
    requires s.cur < |s.tasks| && k <= |run|
  {
    forall j :: m <= j < k ==> !SwitchedOut(s, run, j, i)
  }

  /** Task i has the stack pointer esp saved. */
  predicate Saved(s: Sched, i: nat, esp: u32) {
    i < |s.tasks| && s.tasks[i].kstack == esp
  }

  /** A task that is not switched out keeps its stack pointer. */
  lemma {:induction false} KeepsStack(s: Sched, run: seq<Step>, m: nat, k: nat, i: nat, esp: u32)
    requires s.cur < |s.tasks| && m <= k <= |run| && Saved(At(s, run, m), i, esp)
    requires NotSwitchedOut(s, run, m, k, i)
    ensures Saved(At(s, run, k), i, esp)
    decreases k
  {
    if m < k {
      KeepsStack(s, run, m, k - 1, i, esp);
      assert !SwitchedOut(s, run, k - 1, i);
      StepSaves(At(s, run, k - 1), run[k - 1], i, esp);
    }
  }

  /** A task resumes with the esp of its last switch-out, wherever in the run that was. */
  lemma ResumesWhereLeft(s: Sched, run: seq<Step>, m: nat, k: nat, i: nat)
    requires s.cur < |s.tasks| && m < k <= |run|
    requires SwitchedOut(s, run, m, i) && NotSwitchedOut(s, run, m + 1, k, i)
    ensures Saved(At(s, run, k), i, run[m].esp)
  {
    var before := At(s, run, m);
    StepSaves(before, run[m], i, before.tasks[i].kstack);
    KeepsStack(s, run, m + 1, k, i, run[m].esp);
  }

  /** A task created during the run and not switched out yet starts on the frame it was created with. */
  lemma StartsOnFrame(s: Sched, run: seq<Step>, m: nat, k: nat)
    requires s.cur < |s.tasks| && m < k <= |run| && run[m].Create?
    requires NotSwitchedOut(s, run, m + 1, k, |At(s, run, m).tasks|)
    ensures Saved(At(s, run, k), |At(s, run, m).tasks|, run[m].block.kstack)
  {
    var i := |At(s, run, m).tasks|;
    StepSaves(At(s, run, m), run[m], i, 0);
    KeepsStack(s, run, m + 1, k, i, run[m].block.kstack);
  }

  /** Every task that is not from the start was created by a step of the run. */
  lemma {:induction false} CreatedAt(s: Sched, run: seq<Step>, k: nat, i: nat) returns (m: nat)
    requires s.cur < |s.tasks| && k <= |run| && |s.tasks| <= i < |At(s, run, k).tasks|
    ensures m < k && run[m].Create? && |At(s, run, m).tasks| == i
    decreases k
  {
    if i < |At(s, run, k - 1).tasks| {
      m := CreatedAt(s, run, k - 1, i);
    } else {
      m := k - 1;
    }
  }

  /** What task_switch returns to a task that runs again, and to one that runs for the first time. */
  lemma DispatchReturns(s: Sched, run: seq<Step>, m: nat, k: nat)
    requires s.cur < |s.tasks| && m < k <= |run|
    ensures var i := At(s, run, k).cur;
      && (SwitchedOut(s, run, m, i) && NotSwitchedOut(s, run, m + 1, k, i) ==> Resumed(At(s, run, k)) == run[m].esp)
      && (run[m].Create? && i == |At(s, run, m).tasks| && NotSwitchedOut(s, run, m + 1, k, i) ==>
            Resumed(At(s, run, k)) == run[m].block.kstack)
  {
    var i := At(s, run, k).cur;
    if SwitchedOut(s, run, m, i) && NotSwitchedOut(s, run, m + 1, k, i) {
      ResumesWhereLeft(s, run, m, k, i);
    }
    if run[m].Create? && i == |At(s, run, m).tasks| && NotSwitchedOut(s, run, m + 1, k, i) {
      StartsOnFrame(s, run, m, k);
    }
  }

  // ----- creation, system calls and process ids

  /** A new task comes last, is READY with the next process id, and nothing else changes. */
  lemma CreateIs(s: Sched, block: Task)
    requires s.cur < |s.tasks|
    ensures var s' := Do(s, Create(block));
      && |s'.tasks| == |s.tasks| + 1 && s'.cur == s.cur && s'.tasks[..|s.tasks|] == s.tasks
      && s'.tasks[|s.tasks|] == Task(s.nextPid, Ready, block.pageDirectory, block.kstack, block.kstackTop, block.ustack)
      && s'.nextPid == (if s.nextPid == 0xFFFF_FFFF then 0 else s.nextPid + 1)
  {
  }

  /** yield does what a timer tick does; all numbers but 1 and 3 change nothing. */
  lemma SyscallsAre(s: Sched, number: u32, esp: u32)
    requires s.cur < |s.tasks|
    ensures number == 3 ==> Do(s, Syscall(number, esp)) == Do(s, Tick(esp))
    ensures number != 1 && number != 3 ==> Do(s, Syscall(number, esp)) == s
  {
  }

  /** A tick saves the stack pointer and changes states of the old and the new current task, and nothing else. */
  lemma TickIs(s: Sched, esp: u32)
    requires Inv(s)
    ensures var s' := Do(s, Tick(esp));
      && s'.nextPid == s.nextPid && |s'.tasks| == |s.tasks|
      && s'.tasks[s.cur].kstack == esp && s'.tasks[s.cur].state == (if s'.cur == s.cur then Running else Ready)
      && s'.tasks[s'.cur].state == Running
      && forall i :: 0 <= i < |s.tasks| ==>
           && s'.tasks[i] == s.tasks[i].(state := s'.tasks[i].state, kstack := s'.tasks[i].kstack)
           && (i != s.cur ==> s'.tasks[i].kstack == s.tasks[i].kstack)
           && (i != s.cur && i != s'.cur ==> s'.tasks[i].state == s.tasks[i].state)
  {
  }

  /** An exit is a tick of a task marked as suspended, which stays so unless it is dispatched again. */
  lemma ExitIs(s: Sched, esp: u32)
    requires Inv(s)
    ensures var s' := Do(s, Syscall(1, esp));
      && s'.nextPid == s.nextPid && |s'.tasks| == |s.tasks|
      && s'.tasks[s.cur].kstack == esp && s'.tasks[s.cur].state == (if s'.cur == s.cur then Running else Suspended)
      && s'.tasks[s'.cur].state == Running
      && forall i :: 0 <= i < |s.tasks| ==>
           && s'.tasks[i] == s.tasks[i].(state := s'.tasks[i].state, kstack := s'.tasks[i].kstack)
           && (i != s.cur ==> s'.tasks[i].kstack == s.tasks[i].kstack)
           && (i != s.cur && i != s'.cur ==> s'.tasks[i].state == s.tasks[i].state)
  {
  }

  /** Process ids count up around the ring, from that of the first task, in 32 bits. */
  ghost predicate Numbered(s: Sched, first: u32) {
    (forall i :: 0 <= i < |s.tasks| ==> s.tasks[i].pid == Wrap32(first + i)) && s.nextPid == Wrap32(first + |s.tasks|)
  }

  lemma StepNumbered(s: Sched, st: Step, first: u32)
    requires s.cur < |s.tasks| && Numbered(s, first)
    ensures Numbered(Do(s, st), first)
  {
    if st.Create? {
      CreateIs(s, st.block);
      var s' := Do(s, st);
      forall i | 0 <= i < |s'.tasks|
        ensures s'.tasks[i].pid == Wrap32(first + i)
      {
        assert i < |s.tasks| ==> s'.tasks[i] == s'.tasks[..|s.tasks|][i];
      }
    }
  }

  lemma {:induction false} RunNumbered(s: Sched, run: seq<Step>, k: nat, first: u32)
    requires s.cur < |s.tasks| && k <= |run| && Numbered(s, first)
    ensures Numbered(At(s, run, k), first)
  {
    if k > 0 {
      RunNumbered(s, run, k - 1, first);
      StepNumbered(At(s, run, k - 1), run[k - 1], first);
    }
  }

  /** Two tasks have the same process id exactly when they are a multiple of 2^32 creations apart. */
  lemma PidsDiffer(s: Sched, first: u32, i: nat, j: nat)
    requires Numbered(s, first) && i < j < |s.tasks|
    ensures s.tasks[i].pid == s.tasks[j].pid <==> (j - i) % 0x1_0000_0000 == 0
    ensures |s.tasks| <= 0x1_0000_0000 ==> s.tasks[i].pid != s.tasks[j].pid
  {
  }
}
