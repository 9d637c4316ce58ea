// kernel/sched.c: the linked run queue and the timer switch.
module Scheduler {
  import RoundRobin
  import opened Words

  const STACK_WORDS: nat := 1024
  const IDLE_PLACEHOLDER: u32 := 0xDEAD_BEEF

  // struct task_struct; `stackBase` is the address of the first stack word
  class Task {
    const stack: array<u32>
    const stackBase: u32
    var name: string
    var esp: u32
    var prev: Task?
    var next: Task?

    constructor (stackBase: u32)
      requires stackBase + 4 * STACK_WORDS < 0x1_0000_0000
      ensures stack.Length == STACK_WORDS && fresh(stack) && this.stackBase == stackBase
      ensures name == "" && esp == IDLE_PLACEHOLDER && prev == null && next == null
    {
      this.stackBase := stackBase;
      stack := new u32[STACK_WORDS](_ => 0);
      name, esp, prev, next := "", IDLE_PLACEHOLDER, null, null;
    }
  }

  class RunQueue {
    const idle: Task
    var head: Task?
    var currentTask: Task?
    ghost var queue: seq<Task>
    ghost var cursor: nat

    // The list from head through the next pointers is `queue`, the prev pointers
    // mirror it, no task is in it twice, and the running task is in it.
    ghost predicate Valid()
      reads this, queue
    {
      && RoundRobin.Distinct(queue)
      && (queue == [] ==> head == null && currentTask == null)
      && (queue != [] ==> head == queue[0] && cursor < |queue| && currentTask == queue[cursor])
      && Linked(queue)
    }

    static ghost predicate Linked(q: seq<Task>)
      reads q
    {
      && (forall i {:trigger q[i].next} :: 0 <= i < |q| ==> q[i].next == if i + 1 < |q| then q[i + 1] else null)
      && (forall i {:trigger q[i].prev} :: 0 <= i < |q| ==> q[i].prev == if i > 0 then q[i - 1] else null)
    }

    ghost function View(): RoundRobin.Sched<Task>
      reads this, queue
    {
      RoundRobin.Sched(queue, cursor, map t | t in queue :: t.esp)
    }

    // `idle` is the structure of the idle task, idle_task_s
    constructor (idle: Task)
      ensures Valid() && queue == [] && this.idle == idle
    {
      this.idle, head, currentTask, queue, cursor := idle, null, null, [], 0;
    }

    // add_idle_task_to_run_queue; false where the source spins for ever.  The
    // running task becomes idle_task_s, whichever task is added.
    method AddIdleTaskToRunQueue(task: Task) returns (ok: bool)
      requires Valid()
      modifies this, task
      ensures ok == old(queue == [])
      ensures ok ==> queue == [task] && cursor == 0 && head == task && currentTask == idle && Linked(queue)
      ensures ok ==> (Valid() <==> task == idle) && task.esp == old(task.esp)
      ensures !ok ==> Valid() && View() == old(View())
    {
      if head != null {
        return false;
      }
      head := task;
      task.prev := null;
      task.next := null;
      currentTask := idle;
      queue, cursor := [task], 0;
      return true;
    }

    // init_schedular
    method InitSchedular()
      modifies this, idle
      ensures Valid() && queue == [idle] && cursor == 0 && idle.esp == old(idle.esp)
    {
      head, currentTask, queue, cursor := null, null, [], 0;
      var ok := AddIdleTaskToRunQueue(idle);
    }

    // get_next_task, of the task at place i
    method GetNextTask(cur: Task, ghost i: nat) returns (next: Task)
      requires Valid() && i < |queue| && cur == queue[i]
      ensures next == if i + 1 < |queue| then queue[i + 1] else queue[0]
    {
      if cur.next == null {
        next := head;
      } else {
        next := cur.next;
      }
    }

    // The store of schedule_pending to the running task.
    method SaveFrame(frame: u32)
      requires Valid() && queue != []
      modifies currentTask`esp
      ensures Valid()
      ensures View() == old(View()).(esp := old(View()).esp[queue[cursor] := frame])
    {
      currentTask.esp := frame;
    }

    // schedule_pending, given the frame pointer of the interrupted task
    method SchedulePending(frame: u32) returns (esp: u32)
      requires Valid() && queue != []
      modifies this`currentTask, this`cursor, currentTask`esp
      ensures Valid() && queue == old(queue)
      ensures View() == RoundRobin.Apply(old(View()), RoundRobin.Tick(frame))
      ensures esp == queue[cursor].esp
    {
      SaveFrame(frame);
      currentTask := GetNextTask(currentTask, cursor);
      cursor := RoundRobin.NextCursor(View());
      esp := currentTask.esp;
    }

    // The walk of add_task_to_run_queue to the last node.
    method WalkToEnd() returns (node: Task)
      requires Valid() && queue != []
      ensures node == queue[|queue| - 1]
    {
      node := head;
      ghost var i := 0;
      while node.next != null
        invariant 0 <= i < |queue| && node == queue[i]
        decreases |queue| - i
      {
        node := node.next;
        i := i + 1;
      }
    }

    // Its critical section.
    method LinkAtTail(task: Task)
      requires Valid() && queue != []
      modifies this`queue, task`prev, task`next, queue`next
      ensures task !in old(queue) ==> Valid() && queue == old(queue) + [task]
      ensures task in old(queue) ==> queue == old(queue)
      ensures task.next == null && task.prev == old(queue)[|old(queue)| - 1]
      ensures forall t :: t in old(queue) && t != task ==>
                t.next == if t == old(queue)[|old(queue)| - 1] then task else old(t.next)
    {
      var node := WalkToEnd();
      node.next := task;
      task.prev := node;
      task.next := null;
      if task !in queue {
        queue := queue + [task];
      }
    }

    // add_task_to_run_queue; false where the source spins for ever
    method AddTaskToRunQueue(task: Task) returns (ok: bool)
      requires Valid()
      modifies this`queue, task`prev, task`next, queue`next
      ensures ok == old(queue != [])
      ensures ok && task !in old(queue) ==>
                Valid() && View() == RoundRobin.Apply(old(View()), RoundRobin.Spawn(task, old(task.esp)))
      // a task added twice cuts off the list behind it
      ensures task in old(queue) ==> queue == old(queue) && !Valid()
      ensures forall i :: 0 <= i < |old(queue)| && old(queue)[i] == task ==> CutBehind(i)
      ensures !ok ==> Valid() && View() == old(View())
    {
      if head == null {
        return false;
      }
      LinkAtTail(task);
      if old(task in queue) {
        LinkedTwice(task);
        forall i | 0 <= i < |queue| && queue[i] == task
          ensures CutBehind(i)
        {
        }
      }
      return true;
    }

    // The prev pointer of a task linked twice is wrong.
    lemma LinkedTwice(task: Task)
      requires task in queue && RoundRobin.Distinct(queue) && task.prev == queue[|queue| - 1]
      ensures !Valid()
    {
      var i :| 0 <= i < |queue| && queue[i] == task;
      assert queue[i].prev != if i > 0 then queue[i - 1] else null;
    }

    // From head the links lead to place i and end there.
    ghost predicate CutBehind(i: nat)
      reads this, queue
    {
      && i < |queue| && head == queue[0]
      && forall j {:trigger queue[j].next} :: 0 <= j <= i ==> queue[j].next == if j < i then queue[j + 1] else null
    }
  }
}
