/** The scheduler as the kernel runs it: control blocks linked into a ring through their next fields. */
module Sched {
  import opened Machine
  import opened SchedModel

  class TaskNode {
    var pid: u32
    var state: TaskState
    var pageDirectory: u32
    var kstack: u32
    var kstackTop: u32
    var ustack: u32
    var next: TaskNode?

    constructor (pid: u32, state: TaskState, pageDirectory: u32, kstackTop: u32)
      ensures Snapshot() == Task(pid, state, pageDirectory, 0, kstackTop, 0) && next == null
    {
      this.pid, this.state, this.pageDirectory, this.kstackTop := pid, state, pageDirectory, kstackTop;
      kstack, ustack, next := 0, 0, null;
    }

    ghost function Snapshot(): Task
      reads this
    {
      Task(pid, state, pageDirectory, kstack, kstackTop, ustack)
    }
  }

  ghost function Snapshots(ring: seq<TaskNode>): (r: seq<Task>)
    reads ring
    ensures |r| == |ring|
  {
    seq(|ring|, i requires 0 <= i < |ring| reads ring => ring[i].Snapshot())
  }

  /** The next fields form one ring through exactly these nodes, in this order. */
  ghost predicate Ring(ring: seq<TaskNode>)
    reads ring
  {
    (forall i, j :: 0 <= i < j < |ring| ==> ring[i] != ring[j])
    && forall i :: 0 <= i < |ring| ==> ring[i].next == ring[Around(|ring|, i, 1)]
  }

  // ----- building the initial stacks

  method Push(stack: array<u32>, sp: nat, word: u32) returns (top: nat)
    requires 1 <= sp <= stack.Length
    modifies stack
    ensures top == sp - 1 && stack[top..] == [word] + old(stack[sp..])
  {
    top := sp - 1;
    stack[top] := word;
  }

  /** The part of the frame that iret pops: entry, code selector, flags, and the user stack if any. */
  method PushReturn(stack: array<u32>, entry: u32, isUser: bool, userEsp: u32) returns (sp: nat)
    requires stack.Length == 1024
    modifies stack
    ensures sp == if isUser then 1019 else 1021
    ensures stack[sp..]
         == [entry, if isUser then 0x1B else 0x08, 0x202] + (if isUser then [userEsp, 0x23] else [])
  {
    sp := 1024;
    if isUser {
      sp := Push(stack, sp, 0x23);
      sp := Push(stack, sp, userEsp);
    }
    assert stack[sp..] == if isUser then [userEsp, 0x23] else [];
    sp := Push(stack, sp, 0x202);
    sp := Push(stack, sp, if isUser then 0x1B else 0x08);
    sp := Push(stack, sp, entry);
  }

  /** Push the initial interrupt frame on an empty kernel stack; sp is the word index of its lowest word. */
  method PushFrame(stack: array<u32>, entry: u32, isUser: bool, userEsp: u32) returns (sp: nat)
    requires stack.Length == 1024
    modifies stack
    ensures sp < 1024 && StartsAt(stack[sp..], entry, isUser, userEsp)
  {
    sp := PushReturn(stack, entry, isUser, userEsp);
    ghost var near := stack[sp..];
    sp := PushRepeated(stack, sp, 0, 8);
    ghost var middle := stack[sp..];
    sp := PushRepeated(stack, sp, if isUser then 0x23 else 0x10, 4);
    FrameWords(stack[sp..], middle, near, entry, isUser, userEsp);
  }

  /** The eight general registers, and the four data segment selectors, are pushed with one value each. */
  method PushRepeated(stack: array<u32>, start: nat, word: u32, count: nat) returns (sp: nat)
    requires count <= start <= stack.Length
    modifies stack
    ensures sp == start - count && stack[sp..] == seq(count, _ => word) + old(stack[start..])
  {
    sp := start;
    for r := 0 to count
      invariant sp == start - r
      invariant forall i :: sp <= i < start ==> stack[i] == word
      invariant forall i :: start <= i < stack.Length ==> stack[i] == old(stack[i])
    {
      sp := sp - 1;
      stack[sp] := word;
    }
  }

  lemma FrameWords(words: seq<u32>, middle: seq<u32>, near: seq<u32>, entry: u32, isUser: bool, userEsp: u32)
    requires near == [entry, if isUser then 0x1B else 0x08, 0x202] + (if isUser then [userEsp, 0x23] else [])
    requires middle == seq(8, _ => 0) + near
    requires words == seq(4, _ => if isUser then 0x23 else 0x10) + middle
    ensures StartsAt(words, entry, isUser, userEsp)
  {
    assert words[12..] == near;
    assert near[0] == words[12] && near[1] == words[13] && near[2] == words[14];
    if isUser {
      assert near[3] == words[15] && near[4] == words[16];
    }
  }

  /** The exit trampoline at the bottom of a user stack: mov eax, 1; int 0x80. */
  const TRAMPOLINE: seq<byte> := [0xB8, 0x01, 0x00, 0x00, 0x00, 0xCD, 0x80]

  /** Write the trampoline and push its address, so that returning from the program exits. */
  method PushTrampoline(page: array<byte>, address: u32) returns (esp: u32)
    requires page.Length == 4096 && address + 4096 < 0x1_0000_0000
    modifies page
    ensures page[..7] == TRAMPOLINE && esp == address + 4092
    ensures page[4092] as int + 0x100 * (page[4093] as int) + 0x1_0000 * (page[4094] as int)
            + 0x100_0000 * (page[4095] as int) == address
  {
    for i := 0 to 7
      invariant page[..i] == TRAMPOLINE[..i]
    {
      page[i] := TRAMPOLINE[i];
    }
    page[4092] := address % 0x100;
    page[4093] := address / 0x100 % 0x100;
    page[4094] := address / 0x1_0000 % 0x100;
    page[4095] := address / 0x100_0000;
    esp := address + 4092;
  }

  /** The control block points at a frame that starts the task, and at a user stack that ends it. */
  ghost predicate StacksReady(t: Task, entry: u32, isUser: bool,
                              kpage: seq<u32>, kaddress: u32, upage: seq<byte>, uaddress: u32)
  {
    && |kpage| == 1024 && |upage| == 4096 && uaddress + 4096 < 0x1_0000_0000
    && t.kstackTop == kaddress + 4096 && t.ustack == (if isUser then uaddress + 4096 else 0)
    && (exists sp :: 0 <= sp < 1024 && t.kstack == kaddress + 4 * sp
                     && StartsAt(kpage[sp..], entry, isUser, uaddress + 4092))
    && (isUser ==> upage[..7] == TRAMPOLINE
                   && upage[4092] as int + 0x100 * (upage[4093] as int) + 0x1_0000 * (upage[4094] as int)
                      + 0x100_0000 * (upage[4095] as int) == uaddress)
  }

  method PrepareStacks(t: TaskNode, entry: u32, isUser: bool,
                       kpage: array<u32>, kaddress: u32, upage: array<byte>, uaddress: u32)
    requires kpage.Length == 1024 && upage.Length == 4096 && t.kstackTop == kaddress + 4096
    requires kaddress + 4096 < 0x1_0000_0000 && uaddress + 4096 < 0x1_0000_0000
    modifies t`kstack, t`ustack, kpage, upage
    ensures StacksReady(t.Snapshot(), entry, isUser, kpage[..], kaddress, upage[..], uaddress)
  {
    var userEsp := uaddress + 4092;
    t.ustack := 0;
    if isUser {
      t.ustack := uaddress + 4096;
      userEsp := PushTrampoline(upage, uaddress);
    }
    var sp := PushFrame(kpage, entry, isUser, userEsp);
    t.kstack := kaddress + 4 * sp;
    assert kpage[..][sp..] == kpage[sp..];
    assert upage[..][..7] == upage[..7];
  }

  class Scheduler {
    var current: TaskNode?
    var queue: TaskNode?
    var nextPid: u32
    var active: bool
    /** The ring from the head of the queue, and the position of the current task in it. */
    ghost var ring: seq<TaskNode>
    ghost var cur: nat

    ghost predicate Valid()
      reads this, ring
    {
      && Ring(ring)
      && (if ring == [] then queue == null else queue == ring[0])
      && (active ==> cur < |ring| && current == ring[cur])
      && (!active ==> current == null)
    }

    ghost function State(): SchedModel.Sched
      reads this, ring
      requires Valid() && active
    {
      SchedModel.Sched(Snapshots(ring), cur, nextPid)
    }

    constructor ()
      ensures Valid() && !active && ring == [] && nextPid == 0
    {
      current, queue, nextPid, active := null, null, 0, false;
      ring, cur := [], 0;
    }

    /** Task 0 becomes the running task of a ring of one; the kernel's page directory and stack are inputs. */
    method Init(pageDirectory: u32, stackTop: u32)
      requires Valid()
      modifies this
      ensures Valid() && active
      ensures State() == SchedModel.Sched([Task(old(nextPid), Running, pageDirectory, 0, stackTop, 0)], 0,
                                          Wrap32(old(nextPid) + 1))
      ensures Inv(State())
    {
      var t := new TaskNode(nextPid, Running, pageDirectory, stackTop);
      nextPid := Wrap32(nextPid + 1);
      t.next := t;
      current := t;
      queue := t;
      active := true;
      ring, cur := [t], 0;
    }

    /** Append a node behind the tail of the ring. */
    method Enqueue(t: TaskNode)
      requires Valid() && t !in ring
      modifies this, t, ring
      ensures Valid() && ring == old(ring) + [t] && active == old(active) && nextPid == old(nextPid) && cur == old(cur)
      ensures Snapshots(ring) == old(Snapshots(ring)) + [old(t.Snapshot())]
      ensures t.Snapshot() == old(t.Snapshot())
    {
      if queue == null {
        t.next := t;
        queue := t;
      } else {
        var curr: TaskNode := queue;
        ghost var i := 0;
        while curr.next != queue
          invariant i < |ring| && curr == ring[i]
          decreases |ring| - i
        {
          i := i + 1;
          curr := curr.next;
        }
        assert i == |ring| - 1;
        curr.next := t;
        t.next := queue;
      }
      ring := ring + [t];
    }

    /** task_create: the stack pages, already allocated, are inputs with their addresses. */
    method CreateTask(entry: u32, pageDirectory: u32, isUser: bool,
                      kpage: array<u32>, kaddress: u32, upage: array<byte>, uaddress: u32) returns (t: TaskNode)
      requires Valid() && kpage.Length == 1024 && upage.Length == 4096
      requires kaddress + 4096 < 0x1_0000_0000 && uaddress + 4096 < 0x1_0000_0000
      modifies this, ring, kpage, upage
      ensures Valid() && fresh(t) && ring == old(ring) + [t] && active == old(active)
      ensures StacksReady(t.Snapshot(), entry, isUser, kpage[..], kaddress, upage[..], uaddress)
      ensures active ==> State() == Do(old(State()), Create(t.Snapshot()))
    {
      t := new TaskNode(nextPid, Ready, pageDirectory, kaddress + 4096);
      nextPid := Wrap32(nextPid + 1);
      PrepareStacks(t, entry, isUser, kpage, kaddress, upage, uaddress);
      Enqueue(t);
    }

    /** The search loop of task_switch. */
    method FindNext(ghost ts: seq<Task>) returns (next: TaskNode)
      requires Valid() && active && ts == Snapshots(ring)
      ensures next == ring[Pick(ts, cur, 1)]
    {
      next := current.next;
      ghost var d := 1;
      while next.state != Ready && next.state != Running
        invariant 1 <= d <= |ring| && (d == |ring| ==> d == 1)
        invariant next == ring[Around(|ring|, cur, d)] && Pick(ts, cur, 1) == Pick(ts, cur, d)
        decreases |ring| - d
      {
        next := next.next;
        if d < |ring| {
          d := d + 1;
        }
        if next == current {
          break;
        }
      }
    }

    /** Demote the current task, promote the next one. */
    method Dispatch(next: TaskNode, ghost j: nat)
      requires Valid() && active && j < |ring| && next == ring[j]
      modifies this`current, this`cur, ring
      ensures Valid() && active && cur == j
      ensures var ts := old(Snapshots(ring));
        var demoted := if ts[old(cur)].state == Running then ts[old(cur) := ts[old(cur)].(state := Ready)] else ts;
        Snapshots(ring) == demoted[j := demoted[j].(state := Running)]
    {
      ghost var ts := Snapshots(ring);
      if current.state == Running {
        current.state := Ready;
      }
      ghost var demoted := Snapshots(ring);
      assert demoted == if ts[cur].state == Running then ts[cur := ts[cur].(state := Ready)] else ts;
      current := next;
      cur := j;
      current.state := Running;
      assert Snapshots(ring) == demoted[j := demoted[j].(state := Running)];
    }

    /** The switch proper; the result is the stack pointer to resume with. */
    method TaskSwitch(esp: u32) returns (resume: u32)
      requires Valid()
      modifies this`current, this`cur, ring
      ensures Valid() && active == old(active)
      ensures !active ==> resume == esp && current == old(current) && cur == old(cur)
      ensures !active ==> forall t :: t in ring ==> t.Snapshot() == old(t.Snapshot()) && t.next == old(t.next)
      ensures active ==> State() == Switch(old(State()), esp) && resume == Resumed(State())
    {
      if !active || current == null {
        return esp;
      }
      current.kstack := esp;
      ghost var saved := Snapshots(ring);
      assert saved == old(Snapshots(ring))[cur := old(Snapshots(ring))[cur].(kstack := esp)];
      var next := FindNext(saved);
      assert Snapshots(ring) == saved;
      Dispatch(next, Pick(saved, cur, 1));
      assert Snapshots(ring)[cur].kstack == current.kstack;
      return current.kstack;
    }

    /** The interrupt 0x80 handler; number is the saved eax of the caller's frame. */
    method SyscallHandler(number: u32, esp: u32) returns (resume: u32)
      requires Valid() && (active || number != 1)
      modifies this`current, this`cur, ring
      ensures Valid() && active == old(active)
      ensures active ==> State() == Do(old(State()), Syscall(number, esp))
      ensures resume == if active && Switches(Syscall(number, esp)) then Resumed(State()) else esp
      ensures !active ==> current == old(current) && cur == old(cur)
      ensures !active ==> forall t :: t in ring ==> t.Snapshot() == old(t.Snapshot()) && t.next == old(t.next)
    {
      resume := esp;
      if number == 1 {
        current.state := Suspended;
        assert Snapshots(ring) == old(Snapshots(ring))[cur := old(Snapshots(ring))[cur].(state := Suspended)];
        resume := TaskSwitch(esp);
      } else if number == 3 {
        resume := TaskSwitch(esp);
      }
    }
  }
}
