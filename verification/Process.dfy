// kernel/process.c: the table of task structures and the creation of threads.
module Process {
  import opened InterruptFrame
  import opened Options
  import RoundRobin
  import opened Scheduler
  import opened Words

  const CONFIG_MAX_CREATE_THREADS: nat := 10
  const FRAME_START: nat := 1005

  datatype ThreadResult = Created | TableExhausted | NoRunQueue

  // ---- The bound check of get_free_task_struct ----

  // _ASSERT(index < max, ..) is meant to stop the kernel on an index out of range.
  predicate StopsAsIntended(index: nat, max: nat) {
    index >= max
  }

  // Its macro expands to !index < max, where ! binds tighter than <.
  predicate StopsAsWritten(index: nat, max: nat) {
    (if index == 0 then 1 else 0) < max
  }

  // The two agree only where the intended check stops a table that is not empty,
  // and on the first thread of a table of one.
  lemma AssertAgreesExactlyWhen(index: nat, max: nat)
    ensures (StopsAsWritten(index, max) <==> StopsAsIntended(index, max))
            <==> 0 < max <= index || (index == 0 && max == 1)
  {
  }

  // So with the default table of ten no thread is ever created.
  lemma AssertStopsEveryThread(index: nat)
    ensures StopsAsWritten(index, CONFIG_MAX_CREATE_THREADS)
  {
  }

  // ---- The first frame of a thread ----

  // The registers a new thread starts with.
  function StartContext(fn: u32): Cpu {
    Cpu(0x10, 0x10, 0x10, 0x10, 0, 0, 0, 0, 0, 0, 0, fn, 0x08, 0x0020_0260, FRAME_START + FRAME_WORDS)
  }

  // The stack top kernel_thread builds: a frame, the return address, the argument.
  ghost predicate StartStack(stack: seq<u32>, fn: u32, arg: u32, hello: u32, espImage: u32)
    requires |stack| == STACK_WORDS
  {
    && FrameAt(stack, FRAME_START, Frame(StartContext(fn), espImage, 0, 0))
    && stack[STACK_WORDS - 2] == hello && stack[STACK_WORDS - 1] == arg
  }

  // The first switch to a new thread enters fn with arg as its argument, to
  // return to hello, in the kernel's segments and with the other registers zero.
  lemma FirstSwitchEntersThread(stack: seq<u32>, fn: u32, arg: u32, hello: u32, espImage: u32)
    requires |stack| == STACK_WORDS && StartStack(stack, fn, arg, hello, espImage)
    ensures var c := Restore(stack, FRAME_START);
            && c.eip == fn && c.cs == 0x08 && c.eflags == 0x0020_0260
            && c.sp == STACK_WORDS - 2 && stack[c.sp] == hello && stack[c.sp + 1] == arg
            && c.gs == c.fs == c.es == c.ds == 0x10
            && c.edi == c.esi == c.ebp == c.ebx == c.edx == c.ecx == c.eax == 0
  {
    RestoresFrame(stack, FRAME_START, StartContext(fn), espImage, 0, 0);
  }

  // The writes of kernel_thread to the fields of the frame struct at word p.
  method PutReturn(stack: array<u32>, p: nat, fn: u32)
    requires p + FRAME_WORDS <= stack.Length
    modifies stack
    ensures stack[p + 12] == stack[p + 13] == 0 && stack[p + 14] == fn && stack[p + 15] == 0x08
    ensures stack[p + 16] == 0x0020_0260
    ensures forall k :: 0 <= k < stack.Length && !(p + 12 <= k < p + 17) ==> stack[k] == old(stack[k])
  {
    stack[p + 16] := 0x0020_0260;
    stack[p + 15] := 0x08;
    stack[p + 14] := fn;
    stack[p + 12] := 0;
    stack[p + 13] := 0;
  }

  method PutGeneral(stack: array<u32>, p: nat, esp: u32)
    requires p + FRAME_WORDS <= stack.Length
    modifies stack
    ensures stack[p + 4] == stack[p + 5] == stack[p + 6] == 0 && stack[p + 7] == esp
    ensures stack[p + 8] == stack[p + 9] == stack[p + 10] == stack[p + 11] == 0
    ensures forall k :: 0 <= k < stack.Length && !(p + 4 <= k < p + 12) ==> stack[k] == old(stack[k])
  {
    stack[p + 11] := 0;
    stack[p + 10] := 0;
    stack[p + 9] := 0;
    stack[p + 8] := 0;
    stack[p + 7] := esp;
    stack[p + 6] := 0;
    stack[p + 5] := 0;
    stack[p + 4] := 0;
  }

  method PutSelectors(stack: array<u32>, p: nat)
    requires p + FRAME_WORDS <= stack.Length
    modifies stack
    ensures stack[p] == stack[p + 1] == stack[p + 2] == stack[p + 3] == 0x10
    ensures forall k :: 0 <= k < stack.Length && !(p <= k < p + 4) ==> stack[k] == old(stack[k])
  {
    stack[p + 3] := 0x10;
    stack[p + 2] := 0x10;
    stack[p + 1] := 0x10;
    stack[p] := 0x10;
  }

  method PutFrame(stack: array<u32>, p: nat, fn: u32, esp: u32)
    requires p + FRAME_WORDS <= stack.Length
    modifies stack
    ensures FrameAt(stack[..], p, Frame(StartContext(fn), esp, 0, 0))
    ensures forall k :: 0 <= k < stack.Length && !(p <= k < p + FRAME_WORDS) ==> stack[k] == old(stack[k])
  {
    PutReturn(stack, p, fn);
    PutGeneral(stack, p, esp);
    PutSelectors(stack, p);
  }

  // The stack writes of kernel_thread.
  method BuildStack(stack: array<u32>, stackBase: u32, fn: u32, arg: u32, hello: u32) returns (esp: u32)
    requires stack.Length == STACK_WORDS && stackBase + 4 * STACK_WORDS < 0x1_0000_0000
    modifies stack
    ensures StartStack(stack[..], fn, arg, hello, stackBase + 4 * (STACK_WORDS - 2))
    ensures forall k :: 0 <= k < FRAME_START ==> stack[k] == old(stack[k])
    ensures esp == stackBase + 4 * FRAME_START
  {
    var sptr := STACK_WORDS - 1;
    stack[sptr] := arg;
    sptr := sptr - 1;
    stack[sptr] := hello;
    var i := sptr - FRAME_WORDS;
    PutFrame(stack, i, fn, stackBase + 4 * sptr);
    esp := stackBase + 4 * i;
  }

  // kernel_thread up to the enqueue.
  method PrepareTask(t: Task, fn: u32, arg: u32, hello: u32)
    requires t.stack.Length == STACK_WORDS && t.stackBase + 4 * STACK_WORDS < 0x1_0000_0000
    modifies t`name, t`esp, t.stack
    ensures t.name == "X" && t.esp == t.stackBase + 4 * FRAME_START
    ensures StartStack(t.stack[..], fn, arg, hello, t.stackBase + 4 * (STACK_WORDS - 2))
  {
    t.name := "X";
    t.esp := BuildStack(t.stack, t.stackBase, fn, arg, hello);
  }

  // The queue once t has joined it, with the frame built for it.
  ghost function Joined(s: RoundRobin.Sched<Task>, t: Task): RoundRobin.Sched<Task>
    requires t.stackBase + 4 * STACK_WORDS < 0x1_0000_0000
  {
    RoundRobin.Apply(s, RoundRobin.Spawn(t, t.stackBase + 4 * FRAME_START))
  }

  // The rest of kernel_thread, once it has a structure.
  method StartTask(runQueue: RunQueue, t: Task, fn: u32, arg: u32, hello: u32) returns (ok: bool)
    requires t.stack.Length == STACK_WORDS && t.stackBase + 4 * STACK_WORDS < 0x1_0000_0000
    requires runQueue.Valid() && t !in runQueue.queue
    modifies runQueue`queue, runQueue.queue`next, t, t.stack
    ensures runQueue.Valid() && ok == old(runQueue.queue != [])
    ensures runQueue.queue == old(runQueue.queue) + (if ok then [t] else []) && t.name == "X"
    ensures StartStack(t.stack[..], fn, arg, hello, t.stackBase + 4 * (STACK_WORDS - 2))
    ensures ok ==> runQueue.View() == Joined(old(runQueue.View()), t)
    ensures !ok ==> runQueue.View() == old(runQueue.View())
  {
    PrepareTask(t, fn, arg, hello);
    assert runQueue.View() == old(runQueue.View());
    ok := runQueue.AddTaskToRunQueue(t);
  }

  // ---- The task table ----

  class ProcessTable {
    const pool: seq<Task>
    const runQueue: RunQueue
    var index: u32

    // The structures from `index` on have never been handed out.  The index runs
    // past the table only in the call that stops the kernel.
    ghost predicate Valid()
      reads this, runQueue, runQueue.queue
    {
      && index <= |pool| == CONFIG_MAX_CREATE_THREADS && PoolOk(pool)
      && runQueue.Valid()
      && (forall i :: index <= i < |pool| ==> Apart(pool[i], runQueue.queue))
    }

    // A structure not queued, whose stack no queued task has.
    static predicate Apart(t: Task, queue: seq<Task>) {
      t !in queue && forall u :: u in queue ==> u.stack != t.stack
    }

    // Each structure has a stack of its own.
    static predicate PoolOk(pool: seq<Task>) {
      && RoundRobin.Distinct(pool)
      && (forall i, j :: 0 <= i < j < |pool| ==> pool[i].stack != pool[j].stack)
      && (forall t :: t in pool ==> t.stack.Length == STACK_WORDS && t.stackBase + 4 * STACK_WORDS < 0x1_0000_0000)
    }

    // What the next kernel_thread writes besides the queue.
    ghost function NextSlot(): set<object>
      reads this
    {
      if index < |pool| then {pool[index], pool[index].stack} else {}
    }

    constructor (pool: seq<Task>, runQueue: RunQueue)
      requires |pool| == CONFIG_MAX_CREATE_THREADS && PoolOk(pool) && runQueue.Valid()
      requires forall i :: 0 <= i < |pool| ==> Apart(pool[i], runQueue.queue)
      ensures Valid() && this.pool == pool && this.runQueue == runQueue && index == 0
    {
      this.pool, this.runQueue, index := pool, runQueue, 0;
    }

    // get_free_task_struct with the bound check as intended; None where it stops
    method GetFreeTaskStruct() returns (t: Option<Task>)
      requires Valid()
      modifies this`index
      ensures index == old(index) + 1 && (t.Some? ==> Valid())
      ensures t == if StopsAsIntended(old(index), |pool|) then None else Some(pool[old(index)])
    {
      var taken := index;
      index := index + 1;
      if taken >= CONFIG_MAX_CREATE_THREADS {
        return None;
      }
      return Some(pool[taken]);
    }

    // kernel_thread once it has the structure t.
    method StartSlot(t: Task, fn: u32, arg: u32, hello: u32) returns (ok: bool)
      requires Valid() && 0 < index && t == pool[index - 1] && Apart(t, runQueue.queue)
      modifies runQueue`queue, runQueue.queue`next, t, t.stack
      ensures Valid() && ok == old(runQueue.queue != [])
      ensures ok ==> runQueue.View() == Joined(old(runQueue.View()), t) && t.name == "X"
      ensures ok ==> StartStack(t.stack[..], fn, arg, hello, t.stackBase + 4 * (STACK_WORDS - 2))
      ensures !ok ==> runQueue.View() == old(runQueue.View())
    {
      ok := StartTask(runQueue, t, fn, arg, hello);
      forall i | index <= i < |pool|
        ensures Apart(pool[i], runQueue.queue)
      {
        assert Apart(pool[i], old(runQueue.queue));
      }
    }

    // kernel_thread; `hello` is the address of the function a thread returns to
    method KernelThread(fn: u32, arg: u32, hello: u32) returns (r: ThreadResult)
      requires Valid()
      modifies this`index, runQueue`queue, runQueue.queue`next, NextSlot()
      ensures index == old(index) + 1 && (r != TableExhausted ==> Valid())
      ensures r == if old(index) >= |pool| then TableExhausted
                   else if old(runQueue.queue) == [] then NoRunQueue else Created
      ensures r == Created ==>
                var t := pool[old(index)];
                && runQueue.View() == Joined(old(runQueue.View()), t) && t.name == "X"
                && StartStack(t.stack[..], fn, arg, hello, t.stackBase + 4 * (STACK_WORDS - 2))
      ensures r != Created ==> runQueue.View() == old(runQueue.View())
      // the stacks of the other threads stay as they are
      ensures forall i :: 0 <= i < |pool| && i != old(index) ==> unchanged(pool[i].stack)
      ensures forall t :: t in old(runQueue.queue) ==> unchanged(t.stack)
    {
      var slot := GetFreeTaskStruct();
      if slot == None {
        return TableExhausted;
      }
      var ok := StartSlot(slot.value, fn, arg, hello);
      r := if ok then Created else NoRunQueue;
    }
  }
}
