// Whole runs of threads: what each does between interrupts, the timer switches
// and the creation of new threads (kernel/sched.c, kernel/process.c and
// arch/i386/kernel/vectors.S together), and the registers each thread comes
// back with.
module ContextRuns {
  import opened InterruptFrame
  import Process
  import opened RoundRobin
  import Scheduler
  import opened Words

  // The scheduler, the stack of each task and the address of its first word, and
  // the registers of the running task.
  datatype Machine<!T> = Machine(sched: Sched<T>, stacks: map<T, seq<u32>>, bases: map<T, nat>, cpu: Cpu)

  // What happens next: the running task computes, which changes its registers
  // and its own stack; an interrupt comes, whose handler leaves the words `below`
  // under the frame, without or with a pending switch; or kernel_thread makes a
  // task whose stack it has built.
  datatype Event<T> =
    | Compute(cpu: Cpu, stack: seq<u32>)
    | Device(espImage: u32, intNo: u32, below: seq<u32>)
    | Timer(espImage: u32, intNo: u32, below: seq<u32>)
    | Create(task: T, base: nat, fn: u32, arg: u32, hello: u32, stack: seq<u32>)

  function Running<T>(m: Machine<T>): T
    requires m.sched.cursor < |m.sched.queue|
  {
    m.sched.queue[m.sched.cursor]
  }

  // The word the saved stack pointer of a task points to.
  function SavedAt<T(==)>(m: Machine<T>, t: T): int
    requires t in m.sched.esp && t in m.bases
  {
    (m.sched.esp[t] - m.bases[t]) / 4
  }

  // The saved stack pointer of a task points to a frame in its stack.
  predicate Resumable<T(==)>(m: Machine<T>, t: T) {
    && t in m.stacks && t in m.bases && t in m.sched.esp
    && 0 <= SavedAt(m, t) && SavedAt(m, t) + FRAME_WORDS <= |m.stacks[t]|
  }

  ghost predicate Inv<T>(m: Machine<T>) {
    && WellFormed(m.sched)
    && (forall t :: t in m.sched.queue ==> t in m.stacks && t in m.bases && StackOk(m.bases[t], m.stacks[t]))
    && (forall t :: t in m.sched.queue && t != Running(m) ==> Resumable(m, t))
  }

  predicate StackOk(base: nat, stack: seq<u32>) {
    base + 4 * |stack| < 0x1_0000_0000
  }

  // The stack once an interrupt has been entered and handled.
  function Interrupted(stack: seq<u32>, cpu: Cpu, espImage: u32, intNo: u32, below: seq<u32>): (left: seq<u32>)
    requires FRAME_WORDS <= cpu.sp <= |stack| && |below| == cpu.sp - FRAME_WORDS
    ensures |left| == |stack| && Leaves(stack, cpu, espImage, intNo, left)
  {
    var p := cpu.sp - FRAME_WORDS;
    var left := below + PushAll(stack, cpu.sp, EntryPushes(cpu, espImage, intNo))[p..];
    assert left[p..] == PushAll(stack, cpu.sp, EntryPushes(cpu, espImage, intNo))[p..];
    left
  }

  // An interrupt needs room for its frame, a new task has the stack
  // kernel_thread builds and is not queued yet.
  ghost predicate Legal<T>(m: Machine<T>, e: Event<T>)
    requires Inv(m)
  {
    match e
    case Compute(_, stack) => |stack| == |m.stacks[Running(m)]|
    case Device(_, _, below) => InterruptFits(m.stacks[Running(m)], m.cpu, below)
    case Timer(_, _, below) => InterruptFits(m.stacks[Running(m)], m.cpu, below)
    case Create(task, base, fn, arg, hello, stack) =>
      && task !in m.sched.queue && |stack| == Scheduler.STACK_WORDS && StackOk(base, stack)
      && Process.StartStack(stack, fn, arg, hello, base + 4 * (Scheduler.STACK_WORDS - 2))
  }

  predicate InterruptFits(stack: seq<u32>, cpu: Cpu, below: seq<u32>) {
    FRAME_WORDS <= cpu.sp <= |stack| && |below| == cpu.sp - FRAME_WORDS
  }

  // schedule_pending in the timer interrupt: the frame is left on the stack of
  // the interrupted task, and the registers come from that of the next one.
  ghost function Switch<T>(m: Machine<T>, espImage: u32, intNo: u32, below: seq<u32>): Machine<T>
    requires Inv(m) && InterruptFits(m.stacks[Running(m)], m.cpu, below)
  {
    var t := Running(m);
    var frame: u32 := m.bases[t] + 4 * (m.cpu.sp - FRAME_WORDS);
    var stacks := m.stacks[t := Interrupted(m.stacks[t], m.cpu, espImage, intNo, below)];
    var left := Machine(Apply(m.sched, Tick(frame)), stacks, m.bases, m.cpu);
    var next := Running(left);
    assert next == t || Resumable(m, next);
    left.(cpu := Restore(stacks[next], SavedAt(left, next)))
  }

  ghost function Step<T>(m: Machine<T>, e: Event<T>): Machine<T>
    requires Inv(m) && Legal(m, e)
  {
    var t := Running(m);
    match e
    case Compute(cpu, stack) => m.(cpu := cpu, stacks := m.stacks[t := stack])
    case Device(espImage, intNo, below) =>
      var left := Interrupted(m.stacks[t], m.cpu, espImage, intNo, below);
      m.(stacks := m.stacks[t := left], cpu := Restore(left, m.cpu.sp - FRAME_WORDS))
    case Timer(espImage, intNo, below) => Switch(m, espImage, intNo, below)
    case Create(task, base, _, _, _, stack) =>
      var sched := Apply(m.sched, Spawn(task, base + 4 * Process.FRAME_START));
      Machine(sched, m.stacks[task := stack], m.bases[task := base], m.cpu)
  }

  ghost predicate Runs<T>(m: Machine<T>, events: seq<Event<T>>, m': Machine<T>)
    requires Inv(m)
    decreases |events|
  {
    if events == [] then m' == m
    else
      && Legal(m, events[0])
      && (StepKeepsInv(m, events[0]); Runs(Step(m, events[0]), events[1..], m'))
  }

  lemma StepKeepsInv<T>(m: Machine<T>, e: Event<T>)
    requires Inv(m) && Legal(m, e)
    ensures Inv(Step(m, e))
  {
  }

  lemma {:induction false} RunKeepsInv<T>(m: Machine<T>, events: seq<Event<T>>, m': Machine<T>)
    requires Inv(m) && Runs(m, events, m')
    ensures Inv(m')
    decreases |events|
  {
    if events != [] {
      StepKeepsInv(m, events[0]);
      RunKeepsInv(Step(m, events[0]), events[1..], m');
    }
  }

  // ---- What a task that is not running comes back with ----

  // Task t will be resumed with the registers c, and with `top` on its stack from
  // where its stack pointer is then.
  ghost predicate Parked<T>(m: Machine<T>, t: T, c: Cpu, top: seq<u32>) {
    && t in m.sched.queue && Resumable(m, t)
    && Restore(m.stacks[t], SavedAt(m, t)) == c
    && m.stacks[t][c.sp..] == top
  }

  // Task t runs with the registers c, and `top` on its stack.
  ghost predicate Resumed<T>(m: Machine<T>, t: T, c: Cpu, top: seq<u32>)
    requires m.sched.cursor < |m.sched.queue|
  {
    && Running(m) == t && m.cpu == c && t in m.stacks
    && c.sp <= |m.stacks[t]| && m.stacks[t][c.sp..] == top
  }

  lemma TimerParks<T>(m: Machine<T>, espImage: u32, intNo: u32, below: seq<u32>)
    requires Inv(m) && Legal(m, Timer(espImage, intNo, below))
    ensures var t, left := Running(m), Switch(m, espImage, intNo, below);
            var top := m.stacks[t][m.cpu.sp..];
            WellFormed(left.sched)
            && if Running(left) == t then Resumed(left, t, m.cpu, top) else Parked(left, t, m.cpu, top)
  {
    var t := Running(m);
    InterruptSavesContext(m.stacks[t], m.cpu, espImage, intNo, Interrupted(m.stacks[t], m.cpu, espImage, intNo, below));
  }

  // An interrupt without a switch changes nothing the running task can see.
  lemma DeviceUnnoticed<T>(m: Machine<T>, espImage: u32, intNo: u32, below: seq<u32>)
    requires Inv(m) && Legal(m, Device(espImage, intNo, below))
    ensures var left := Step(m, Device(espImage, intNo, below));
            left.sched == m.sched && Resumed(left, Running(m), m.cpu, m.stacks[Running(m)][m.cpu.sp..])
  {
    var t := Running(m);
    InterruptSavesContext(m.stacks[t], m.cpu, espImage, intNo, Interrupted(m.stacks[t], m.cpu, espImage, intNo, below));
  }

  lemma CreateParks<T>(m: Machine<T>, task: T, base: nat, fn: u32, arg: u32, hello: u32, stack: seq<u32>)
    requires Inv(m) && Legal(m, Create(task, base, fn, arg, hello, stack))
    ensures var left := Step(m, Create(task, base, fn, arg, hello, stack));
            Running(left) != task && Parked(left, task, Process.StartContext(fn), [hello, arg])
  {
    RestoresFrame(stack, Process.FRAME_START, Process.StartContext(fn), base + 4 * (Scheduler.STACK_WORDS - 2), 0, 0);
    assert stack[Scheduler.STACK_WORDS - 2..] == [hello, arg];
  }

  // Whatever the others do, a parked task stays parked as it is until it runs.
  lemma ParkedUntilItRuns<T>(m: Machine<T>, e: Event<T>, t: T, c: Cpu, top: seq<u32>)
    requires Inv(m) && Legal(m, e) && Parked(m, t, c, top) && t != Running(m)
    ensures var left := Step(m, e);
            WellFormed(left.sched)
            && if Running(left) == t then Resumed(left, t, c, top) else Parked(left, t, c, top)
  {
  }

  // The last event is the first after which t runs.
  ghost predicate NextTurn<T>(m: Machine<T>, events: seq<Event<T>>, t: T)
    requires Inv(m)
    decreases |events|
  {
    && events != [] && Legal(m, events[0])
    && (StepKeepsInv(m, events[0]);
        var left := Step(m, events[0]);
        if |events| == 1 then Running(left) == t else Running(left) != t && NextTurn(left, events[1..], t))
  }

  lemma {:induction false} ComesBack<T>(
    m: Machine<T>, events: seq<Event<T>>, m': Machine<T>, t: T, c: Cpu, top: seq<u32>)
    requires Inv(m) && Runs(m, events, m') && NextTurn(m, events, t)
    requires Parked(m, t, c, top) && t != Running(m)
    ensures WellFormed(m'.sched) && Resumed(m', t, c, top)
    decreases |events|
  {
    StepKeepsInv(m, events[0]);
    ParkedUntilItRuns(m, events[0], t, c, top);
    if |events| > 1 {
      ComesBack(Step(m, events[0]), events[1..], m', t, c, top);
    }
  }

  // A task that a timer interrupt stops comes back, at its next turn, with every
  // register and the stack as they were, whatever the other tasks, the interrupts
  // and the creation of threads did meanwhile.
  lemma InterruptedTaskComesBack<T>(m: Machine<T>, events: seq<Event<T>>, m': Machine<T>)
    requires Inv(m) && Runs(m, events, m')
    requires NextTurn(m, events, Running(m)) && events[0].Timer?
    ensures WellFormed(m'.sched) && Resumed(m', Running(m), m.cpu, m.stacks[Running(m)][m.cpu.sp..])
  {
    var t, top := Running(m), m.stacks[Running(m)][m.cpu.sp..];
    StepKeepsInv(m, events[0]);
    TimerParks(m, events[0].espImage, events[0].intNo, events[0].below);
    if |events| > 1 {
      ComesBack(Step(m, events[0]), events[1..], m', t, m.cpu, top);
    }
  }

  // A new thread first runs with the registers kernel_thread laid out for it: at
  // its function, with the return address and the argument on its stack.
  lemma NewTaskStarts<T>(m: Machine<T>, events: seq<Event<T>>, m': Machine<T>)
    requires Inv(m) && events != [] && events[0].Create?
    requires Runs(m, events, m') && NextTurn(m, events, events[0].task)
    ensures var e := events[0];
            WellFormed(m'.sched) && Resumed(m', e.task, Process.StartContext(e.fn), [e.hello, e.arg])
  {
    var e := events[0];
    StepKeepsInv(m, e);
    CreateParks(m, e.task, e.base, e.fn, e.arg, e.hello, e.stack);
    ComesBack(Step(m, e), events[1..], m', e.task, Process.StartContext(e.fn), [e.hello, e.arg]);
  }

  // Where runs start: init_schedular has queued the idle task, which is running.
  lemma StartInv<T>(idle: T, placeholder: u32, base: nat, stack: seq<u32>, cpu: Cpu)
    requires StackOk(base, stack)
    ensures Inv(Machine(Sched([idle], 0, map[idle := placeholder]), map[idle := stack], map[idle := base], cpu))
  {
  }
}
