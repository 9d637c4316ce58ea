// The interrupt stub of arch/i386/kernel/vectors.S with schedule_pending, and
// kernel_thread, on the run queue itself: each does what the corresponding event
// of a run does to the machine.
module ContextSwitch {
  import opened ContextRuns
  import opened InterruptFrame
  import opened Process
  import RoundRobin
  import opened Scheduler
  import opened Words

  // Every task has a stack of its own.
  ghost predicate OwnStacks(queue: seq<Task>) {
    && (forall t :: t in queue ==> t.stackBase + 4 * t.stack.Length < 0x1_0000_0000)
    && (forall i, j :: 0 <= i < j < |queue| ==> queue[i].stack != queue[j].stack)
  }

  // The machine m is what the run queue, the stacks and the registers make up.
  ghost predicate Mirrors(m: Machine<Task>, q: RunQueue, cpu: Cpu)
    reads q, q.queue, set t | t in q.queue :: t.stack
  {
    m.sched == q.View() && m.cpu == cpu && forall t :: t in q.queue ==> HasStack(m, t)
  }

  ghost predicate HasStack(m: Machine<Task>, t: Task)
    reads t.stack
  {
    t in m.stacks && m.stacks[t] == t.stack[..] && t in m.bases && m.bases[t] == t.stackBase
  }

  // Words pushed one after another.
  method PushWords(stack: array<u32>, sp: nat, words: seq<u32>) returns (p: nat)
    requires |words| <= sp <= stack.Length
    modifies stack
    ensures stack[..] == PushAll(old(stack[..]), sp, words) && p == sp - |words|
  {
    p := sp;
    var i := 0;
    while i < |words|
      invariant 0 <= i <= |words| && p == sp - i
      invariant PushAll(stack[..], p, words[i..]) == PushAll(old(stack[..]), sp, words)
    {
      ghost var before := stack[..];
      p := p - 1;
      stack[p] := words[i];
      assert stack[..] == Push(before, p + 1, words[i]) && words[i..][1..] == words[i + 1..];
      i := i + 1;
    }
  }

  // Entry of an interrupt, and what its handler leaves on the stack.
  method EnterInterrupt(stack: array<u32>, cpu: Cpu, espImage: u32, intNo: u32, below: seq<u32>) returns (p: nat)
    requires InterruptFits(stack[..], cpu, below)
    modifies stack
    ensures p == cpu.sp - FRAME_WORDS && stack[..] == Interrupted(old(stack[..]), cpu, espImage, intNo, below)
  {
    p := PushWords(stack, cpu.sp, EntryPushes(cpu, espImage, intNo));
    ghost var pushed := stack[..];
    forall k | 0 <= k < p {
      stack[k] := below[k];
    }
    assert stack[..] == below + pushed[p..];
  }

  // The same on the stack of the running task, the others left alone.
  method EnterOnCurrent(q: RunQueue, cpu: Cpu, espImage: u32, intNo: u32, below: seq<u32>) returns (p: nat)
    requires q.Valid() && q.queue != [] && OwnStacks(q.queue)
    requires InterruptFits(q.queue[q.cursor].stack[..], cpu, below)
    modifies q.queue[q.cursor].stack
    ensures p == cpu.sp - FRAME_WORDS
    ensures var t := q.queue[q.cursor]; t.stack[..] == Interrupted(old(t.stack[..]), cpu, espImage, intNo, below)
    ensures forall u :: u in q.queue && u != q.queue[q.cursor] ==> u.stack[..] == old(u.stack[..])
  {
    var t := q.currentTask;
    p := EnterInterrupt(t.stack, cpu, espImage, intNo, below);
    OthersApart(q.queue, q.cursor);
  }

  // The address of the frame an interrupt leaves on the stack of t.
  function FrameAddress(t: Task, cpu: Cpu): u32
    requires t.stackBase + 4 * t.stack.Length < 0x1_0000_0000 && FRAME_WORDS <= cpu.sp <= t.stack.Length
  {
    t.stackBase + 4 * (cpu.sp - FRAME_WORDS)
  }

  // Entry of the timer interrupt and the call of schedule_pending.
  method SaveAndSchedule(q: RunQueue, cpu: Cpu, espImage: u32, intNo: u32, below: seq<u32>) returns (esp: u32)
    requires q.Valid() && q.queue != [] && OwnStacks(q.queue)
    requires InterruptFits(q.queue[q.cursor].stack[..], cpu, below)
    modifies q`currentTask, q`cursor, q.currentTask`esp, q.queue[q.cursor].stack
    ensures q.Valid() && q.queue == old(q.queue) && esp == q.queue[q.cursor].esp
    ensures q.View() == RoundRobin.Apply(old(q.View()), RoundRobin.Tick(FrameAddress(old(q.queue[q.cursor]), cpu)))
    ensures var t := old(q.queue[q.cursor]); t.stack[..] == Interrupted(old(t.stack[..]), cpu, espImage, intNo, below)
    ensures forall u :: u in q.queue && u != old(q.queue[q.cursor]) ==> u.stack[..] == old(u.stack[..])
  {
    var t := q.currentTask;
    var p := EnterOnCurrent(q, cpu, espImage, intNo, below);
    esp := q.SchedulePending(t.stackBase + 4 * p);
  }

  // The machine before the pops of a switch.
  ghost function BeforePops<T>(m: Machine<T>, frame: u32, stack: seq<u32>): Machine<T>
    requires m.sched.cursor < |m.sched.queue|
  {
    Machine(RoundRobin.Apply(m.sched, RoundRobin.Tick(frame)), m.stacks[Running(m) := stack], m.bases, m.cpu)
  }

  ghost function AfterPops<T>(left: Machine<T>): Machine<T>
    requires left.sched.cursor < |left.sched.queue| && Resumable(left, Running(left))
  {
    left.(cpu := Restore(left.stacks[Running(left)], SavedAt(left, Running(left))))
  }

  lemma SwitchIs<T>(m: Machine<T>, espImage: u32, intNo: u32, below: seq<u32>, frame: u32, stack: seq<u32>)
    requires Inv(m) && InterruptFits(m.stacks[Running(m)], m.cpu, below)
    requires frame == m.bases[Running(m)] + 4 * (m.cpu.sp - FRAME_WORDS)
    requires stack == Interrupted(m.stacks[Running(m)], m.cpu, espImage, intNo, below)
    ensures var left := BeforePops(m, frame, stack);
            && left.sched.cursor < |left.sched.queue| && Resumable(left, Running(left))
            && AfterPops(left) == Switch(m, espImage, intNo, below)
  {
    var left := BeforePops(m, frame, stack);
    assert Running(left) == Running(m) || Resumable(m, Running(left));
  }

  // The pops of the stub, with the stack pointer from eax.
  method PopFrame(q: RunQueue, esp: u32, ghost left: Machine<Task>) returns (cpu: Cpu)
    requires q.Valid() && q.queue != [] && esp == q.queue[q.cursor].esp
    requires Mirrors(left, q, left.cpu) && Resumable(left, Running(left))
    ensures Mirrors(AfterPops(left), q, cpu)
  {
    var next := q.currentTask;
    assert HasStack(left, next) && SavedAt(left, next) == (esp - next.stackBase) / 4;
    cpu := Restore(next.stack[..], (esp - next.stackBase) / 4);
  }

  // An interrupt with a switch pending: the frame goes on the stack of the running
  // task, and the pops take the one schedule_pending returns.
  method TimerInterrupt(q: RunQueue, cpu: Cpu, espImage: u32, intNo: u32, below: seq<u32>, ghost m: Machine<Task>)
    returns (cpu': Cpu)
    requires q.Valid() && q.queue != [] && OwnStacks(q.queue) && Mirrors(m, q, cpu) && Inv(m)
    requires InterruptFits(m.stacks[Running(m)], m.cpu, below)
    modifies q`currentTask, q`cursor, q.currentTask`esp, q.queue[q.cursor].stack
    ensures q.Valid() && q.queue == old(q.queue)
    ensures Mirrors(Switch(m, espImage, intNo, below), q, cpu')
  {
    ghost var t := q.queue[q.cursor];
    assert HasStack(m, t);
    var esp := SaveAndSchedule(q, cpu, espImage, intNo, below);
    SwitchIs(m, espImage, intNo, below, FrameAddress(t, cpu), t.stack[..]);
    ghost var left := BeforePops(m, FrameAddress(t, cpu), t.stack[..]);
    forall u | u in q.queue
      ensures HasStack(left, u)
    {
      assert old(HasStack(m, u));
    }
    cpu' := PopFrame(q, esp, left);
  }

  // An interrupt without one.
  method DeviceInterrupt(q: RunQueue, cpu: Cpu, espImage: u32, intNo: u32, below: seq<u32>, ghost m: Machine<Task>)
    returns (cpu': Cpu)
    requires q.Valid() && q.queue != [] && OwnStacks(q.queue) && Mirrors(m, q, cpu) && Inv(m)
    requires InterruptFits(m.stacks[Running(m)], m.cpu, below)
    modifies q.queue[q.cursor].stack
    ensures q.Valid()
    ensures Mirrors(Step(m, Device(espImage, intNo, below)), q, cpu')
  {
    ghost var t := q.queue[q.cursor];
    assert HasStack(m, t);
    var p := EnterOnCurrent(q, cpu, espImage, intNo, below);
    cpu' := Restore(q.currentTask.stack[..], p);
    ghost var left := m.(stacks := m.stacks[t := t.stack[..]], cpu := cpu');
    forall u | u in q.queue
      ensures HasStack(left, u)
    {
      assert old(HasStack(m, u));
    }
  }

  // init_schedular starts a run.
  method StartScheduling(q: RunQueue, cpu: Cpu) returns (ghost m: Machine<Task>)
    requires q.idle.stackBase + 4 * q.idle.stack.Length < 0x1_0000_0000
    modifies q, q.idle
    ensures q.Valid() && q.queue == [q.idle] && OwnStacks(q.queue) && Mirrors(m, q, cpu) && Inv(m)
  {
    q.InitSchedular();
    ghost var t := q.idle;
    m := Machine(q.View(), map[t := t.stack[..]], map[t := t.stackBase], cpu);
    assert q.View().esp == map[t := t.esp];
    StartInv(t, t.esp, t.stackBase, t.stack[..], cpu);
  }

  // The running task computes: it writes its registers and its own stack.
  method RunTask(q: RunQueue, cpu: Cpu, next: Cpu, words: seq<u32>, ghost m: Machine<Task>)
    requires q.Valid() && q.queue != [] && OwnStacks(q.queue) && Mirrors(m, q, cpu) && Inv(m)
    requires |words| == q.queue[q.cursor].stack.Length
    modifies q.queue[q.cursor].stack
    ensures Legal(m, Compute(next, words)) && Mirrors(Step(m, Compute(next, words)), q, next)
  {
    var t := q.currentTask;
    assert HasStack(m, t);
    forall k | 0 <= k < |words| {
      t.stack[k] := words[k];
    }
    assert t.stack[..] == words;
    OthersApart(q.queue, q.cursor);
    forall u | u in q.queue
      ensures HasStack(Step(m, Compute(next, words)), u)
    {
      assert old(HasStack(m, u));
    }
  }

  lemma OthersApart(queue: seq<Task>, k: nat)
    requires OwnStacks(queue) && k < |queue|
    ensures forall u :: u in queue && u != queue[k] ==> u.stack != queue[k].stack
  {
    forall u | u in queue && u != queue[k]
      ensures u.stack != queue[k].stack
    {
      var i :| 0 <= i < |queue| && queue[i] == u;
      assert i < k || k < i;
    }
  }

  // ---- kernel_thread ----

  ghost function CreateEvent(t: Task, fn: u32, arg: u32, hello: u32): Event<Task>
    reads t.stack
  {
    Create(t, t.stackBase, fn, arg, hello, t.stack[..])
  }

  // The machine once t has been created.
  ghost function AfterCreate<T>(m: Machine<T>, task: T, base: nat, frame: u32, stack: seq<u32>): Machine<T> {
    var sched := RoundRobin.Apply(m.sched, RoundRobin.Spawn(task, frame));
    Machine(sched, m.stacks[task := stack], m.bases[task := base], m.cpu)
  }

  lemma CreateIs<T>(m: Machine<T>, task: T, base: nat, fn: u32, arg: u32, hello: u32, stack: seq<u32>)
    requires Inv(m) && task !in m.sched.queue && |stack| == STACK_WORDS && StackOk(base, stack)
    requires StartStack(stack, fn, arg, hello, base + 4 * (STACK_WORDS - 2))
    ensures Legal(m, Create(task, base, fn, arg, hello, stack))
    ensures Step(m, Create(task, base, fn, arg, hello, stack)) ==
            AfterCreate(m, task, base, base + 4 * FRAME_START, stack)
  {
  }

  lemma QueueGrows(queue: seq<Task>, t: Task)
    requires OwnStacks(queue) && ProcessTable.Apart(t, queue) && t.stackBase + 4 * t.stack.Length < 0x1_0000_0000
    ensures OwnStacks(queue + [t])
  {
  }

  // kernel_thread and the task it made.
  method RunKernelThread(table: ProcessTable, fn: u32, arg: u32, hello: u32) returns (r: ThreadResult, ghost t: Task)
    requires table.Valid()
    modifies table`index, table.runQueue`queue, table.runQueue.queue`next, table.NextSlot()
    ensures t in table.pool
    ensures r == Created ==>
              && table.Valid() && ProcessTable.Apart(t, old(table.runQueue.queue))
              && table.runQueue.queue == old(table.runQueue.queue) + [t]
              && table.runQueue.View() == Joined(old(table.runQueue.View()), t)
              && StartStack(t.stack[..], fn, arg, hello, t.stackBase + 4 * (STACK_WORDS - 2))
    ensures r != Created ==>
              table.runQueue.queue == old(table.runQueue.queue) && table.runQueue.View() == old(table.runQueue.View())
    ensures forall u :: u in old(table.runQueue.queue) ==> u.stack[..] == old(u.stack[..])
  {
    t := table.pool[if table.index < |table.pool| then table.index else 0];
    ghost var queue := table.runQueue.queue;
    assert table.index < |table.pool| ==> ProcessTable.Apart(t, queue);
    r := table.KernelThread(fn, arg, hello);
    assert table.runQueue.View().queue == if r == Created then queue + [t] else queue;
  }

  lemma CreatedMirrors(m: Machine<Task>, q: RunQueue, cpu: Cpu, t: Task, fn: u32, arg: u32, hello: u32)
    requires Inv(m) && m.cpu == cpu && t !in m.sched.queue && (forall u :: u in m.sched.queue ==> HasStack(m, u))
    requires t.stack.Length == STACK_WORDS && t.stackBase + 4 * STACK_WORDS < 0x1_0000_0000
    requires q.View() == Joined(m.sched, t)
    requires StartStack(t.stack[..], fn, arg, hello, t.stackBase + 4 * (STACK_WORDS - 2))
    ensures Legal(m, CreateEvent(t, fn, arg, hello))
    ensures Mirrors(Step(m, CreateEvent(t, fn, arg, hello)), q, cpu)
  {
    CreateIs(m, t, t.stackBase, fn, arg, hello, t.stack[..]);
    var left := AfterCreate(m, t, t.stackBase, t.stackBase + 4 * FRAME_START, t.stack[..]);
    assert q.queue == m.sched.queue + [t];
    forall u | u in q.queue
      ensures HasStack(left, u)
    {
      assert u != t ==> HasStack(m, u);
    }
  }

  // kernel_thread, called by the running task.
  method CreateThread(table: ProcessTable, cpu: Cpu, fn: u32, arg: u32, hello: u32, ghost m: Machine<Task>)
    returns (r: ThreadResult, ghost t: Task)
    requires table.Valid() && OwnStacks(table.runQueue.queue) && Mirrors(m, table.runQueue, cpu) && Inv(m)
    modifies table`index, table.runQueue`queue, table.runQueue.queue`next, table.NextSlot()
    ensures r == Created ==> t in table.pool && table.Valid() && OwnStacks(table.runQueue.queue)
    ensures r == Created ==> Legal(m, CreateEvent(t, fn, arg, hello))
    ensures r == Created ==> Mirrors(Step(m, CreateEvent(t, fn, arg, hello)), table.runQueue, cpu)
    ensures r != Created ==> Mirrors(m, table.runQueue, cpu)
  {
    ghost var queue := table.runQueue.queue;
    r, t := RunKernelThread(table, fn, arg, hello);
    forall u | u in queue
      ensures HasStack(m, u)
    {
      assert old(HasStack(m, u));
    }
    if r == Created {
      QueueGrows(queue, t);
      CreatedMirrors(m, table.runQueue, cpu, t, fn, arg, hello);
    }
  }
}
