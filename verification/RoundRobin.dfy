// The round-robin discipline of kernel/sched.c on values: a queue that grows at
// its tail, a cursor that goes round it, and the stack pointer saved for each
// task.  Everything here is about runs of timer switches and task creations.
module RoundRobin {
  import opened Options
  import opened Words

  datatype Sched<!T> = Sched(queue: seq<T>, cursor: nat, esp: map<T, u32>)

  // A timer switch, given the interrupted task's frame pointer, or a new task
  // with the frame kernel_thread built for it.
  datatype Op<T> = Tick(frame: u32) | Spawn(task: T, esp: u32)

  predicate Distinct<T(==)>(q: seq<T>) {
    forall i, j :: 0 <= i < j < |q| ==> q[i] != q[j]
  }

  predicate WellFormed<T(==)>(s: Sched<T>) {
    && s.cursor < |s.queue|
    && Distinct(s.queue)
    && (forall t :: t in s.queue ==> t in s.esp)
  }

  // get_next_task: the next in the queue, or the head after the last
  function NextCursor<T>(s: Sched<T>): nat {
    if s.cursor + 1 < |s.queue| then s.cursor + 1 else 0
  }

  // schedule_pending and add_task_to_run_queue
  function Apply<T(==)>(s: Sched<T>, op: Op<T>): Sched<T> {
    match op
    case Tick(frame) =>
      if s.cursor < |s.queue| then Sched(s.queue, NextCursor(s), s.esp[s.queue[s.cursor] := frame]) else s
    case Spawn(t, esp) => Sched(s.queue + [t], s.cursor, s.esp[t := esp])
  }

  // ---- Runs ----

  function After<T(==)>(s: Sched<T>, ops: seq<Op<T>>): Sched<T> {
    if ops == [] then s else Apply(After(s, ops[..|ops| - 1]), ops[|ops| - 1])
  }

  // A task structure is put in the queue once only.
  predicate Fresh<T(==)>(s: Sched<T>, ops: seq<Op<T>>) {
    ops == []
    || (Fresh(s, ops[..|ops| - 1])
        && (ops[|ops| - 1].Spawn? ==> ops[|ops| - 1].task !in After(s, ops[..|ops| - 1]).queue))
  }

  function Ticks<T>(ops: seq<Op<T>>): nat {
    if ops == [] then 0 else Ticks(ops[..|ops| - 1]) + (if ops[|ops| - 1].Tick? then 1 else 0)
  }

  // The tasks switched to, in order.
  function Turns<T(==)>(s: Sched<T>, ops: seq<Op<T>>): seq<T>
    requires WellFormed(s) && Fresh(s, ops)
  {
    if ops == [] then []
    else
      RunWellFormed(s, ops);
      var now := After(s, ops);
      Turns(s, ops[..|ops| - 1]) + (if ops[|ops| - 1].Tick? then [now.queue[now.cursor]] else [])
  }

  // The queue stays duplicate-free and only grows at its tail, and the cursor
  // stays inside it.
  lemma {:induction false} RunWellFormed<T>(s: Sched<T>, ops: seq<Op<T>>)
    requires WellFormed(s) && Fresh(s, ops)
    ensures WellFormed(After(s, ops))
    ensures s.queue <= After(s, ops).queue
  {
    if ops != [] {
      RunWellFormed(s, ops[..|ops| - 1]);
    }
  }

  // ---- Fairness ----

  // Since the task at place `start` last ran, the turns were: the tasks after it
  // in queue order as far as the cursor has come, or all of them up to place m,
  // where the cursor wrapped, then those from the head on.
  predicate Shape<T(==)>(queue: seq<T>, start: nat, cursor: nat, m: nat, turns: seq<T>) {
    && start < m <= |queue| && cursor < |queue|
    && turns == if cursor >= start then queue[start + 1..cursor + 1] else queue[start + 1..m] + queue[..cursor + 1]
  }

  lemma ShapeTick<T>(queue: seq<T>, start: nat, cursor: nat, m: nat, turns: seq<T>)
    requires Shape(queue, start, cursor, m, turns)
    ensures var next := if cursor + 1 < |queue| then cursor + 1 else 0;
            next != start ==> Shape(queue, start, next, if next == 0 then |queue| else m, turns + [queue[next]])
    ensures var next := if cursor + 1 < |queue| then cursor + 1 else 0;
            next == start ==>
              turns + [queue[next]] == queue[start + 1..if start == 0 then |queue| else m] + queue[..start + 1]
  {
  }

  lemma ShapeSpawn<T>(queue: seq<T>, start: nat, cursor: nat, m: nat, turns: seq<T>, t: T)
    requires Shape(queue, start, cursor, m, turns)
    ensures Shape(queue + [t], start, cursor, m, turns)
  {
  }

  // What a switch adds to the turns.
  lemma TurnsTick<T>(s: Sched<T>, ops: seq<Op<T>>)
    requires WellFormed(s) && Fresh(s, ops) && ops != [] && ops[|ops| - 1].Tick?
    ensures var front := ops[..|ops| - 1];
            var was, now := After(s, front), After(s, ops);
            && WellFormed(was) && now.queue == was.queue && now.cursor == NextCursor(was)
            && Turns(s, ops) == Turns(s, front) + [was.queue[NextCursor(was)]]
  {
    RunWellFormed(s, ops[..|ops| - 1]);
  }

  // One more switch, not back to the task at place `start`.
  lemma ShapeNext<T>(queue: seq<T>, start: nat, cursor: nat, m: nat, turns: seq<T>, next: nat, longer: seq<T>)
    returns (m': nat)
    requires Shape(queue, start, cursor, m, turns)
    requires next == (if cursor + 1 < |queue| then cursor + 1 else 0) && longer == turns + [queue[next]]
    requires queue[start] !in longer
    ensures m <= m' && Shape(queue, start, next, m', longer)
  {
    assert longer[|turns|] == queue[next];
    ShapeTick(queue, start, cursor, m, turns);
    m' := if next == 0 then |queue| else m;
  }

  lemma RotationTick<T>(s: Sched<T>, ops: seq<Op<T>>, m: nat) returns (m': nat)
    requires WellFormed(s) && Fresh(s, ops) && ops != [] && ops[|ops| - 1].Tick?
    requires s.queue <= After(s, ops[..|ops| - 1]).queue && |s.queue| <= m
    requires var was := After(s, ops[..|ops| - 1]);
             Shape(was.queue, s.cursor, was.cursor, m, Turns(s, ops[..|ops| - 1]))
    requires s.queue[s.cursor] !in Turns(s, ops)
    ensures |s.queue| <= m' && Shape(After(s, ops).queue, s.cursor, After(s, ops).cursor, m', Turns(s, ops))
  {
    TurnsTick(s, ops);
    var was := After(s, ops[..|ops| - 1]);
    assert was.queue[s.cursor] == s.queue[s.cursor];
    m' := ShapeNext(was.queue, s.cursor, was.cursor, m, Turns(s, ops[..|ops| - 1]), NextCursor(was), Turns(s, ops));
  }

  lemma {:induction false} RotationShape<T>(s: Sched<T>, ops: seq<Op<T>>) returns (m: nat)
    requires WellFormed(s) && Fresh(s, ops)
    requires s.queue[s.cursor] !in Turns(s, ops)
    ensures m >= |s.queue|
    ensures Shape(After(s, ops).queue, s.cursor, After(s, ops).cursor, m, Turns(s, ops))
  {
    m := |s.queue|;
    if ops == [] {
      assert s.queue[s.cursor + 1..s.cursor + 1] == [];
    } else {
      var front, last := ops[..|ops| - 1], ops[|ops| - 1];
      RunWellFormed(s, front);
      m := RotationShape(s, front);
      if last.Tick? {
        m := RotationTick(s, ops, m);
      } else {
        var was := After(s, front);
        ShapeSpawn(was.queue, s.cursor, was.cursor, m, Turns(s, front), last.task);
        assert Turns(s, ops) == Turns(s, front);
      }
    }
  }

  lemma {:induction false} DistinctOnce<T>(q: seq<T>, x: T)
    requires Distinct(q)
    ensures multiset(q)[x] == if x in q then 1 else 0
  {
    if q != [] {
      assert q == q[..|q| - 1] + [q[|q| - 1]];
      DistinctOnce(q[..|q| - 1], x);
    }
  }

  lemma TurnedOnce<T>(a: seq<T>, b: seq<T>, x: T)
    requires Distinct(b + a)
    ensures multiset(a + b)[x] == if x in b + a then 1 else 0
  {
    DistinctOnce(b + a, x);
    assert multiset(a + b) == multiset(b + a);
  }

  // A round that starts after place `start` and ends there has every task of the
  // queue up to m once.
  lemma RoundOnce<T>(queue: seq<T>, start: nat, m: nat, turns: seq<T>, x: T)
    requires Distinct(queue) && start < m <= |queue|
    requires turns == queue[start + 1..m] + queue[..start + 1]
    ensures multiset(turns)[x] == if x in queue[..m] then 1 else 0
  {
    assert queue[..m] == queue[..start + 1] + queue[start + 1..m];
    TurnedOnce(queue[start + 1..m], queue[..start + 1], x);
  }

  // The running task.
  function Current<T>(s: Sched<T>): Option<T> {
    if s.cursor < |s.queue| then Some(s.queue[s.cursor]) else None
  }

  // The switch back to the task at place `start`.
  lemma RoundClosed<T>(queue: seq<T>, start: nat, cursor: nat, m: nat, turns: seq<T>, longer: seq<T>) returns (m': nat)
    requires Shape(queue, start, cursor, m, turns)
    requires start == (if cursor + 1 < |queue| then cursor + 1 else 0) && longer == turns + [queue[start]]
    ensures m <= m' <= |queue| && longer == queue[start + 1..m'] + queue[..start + 1]
  {
    ShapeTick(queue, start, cursor, m, turns);
    m' := if start == 0 then |queue| else m;
  }

  // The turns up to and with the next turn of a task go once round the queue as
  // it was when the cursor wrapped.
  lemma FullRound<T>(s: Sched<T>, ops: seq<Op<T>>) returns (m: nat)
    requires WellFormed(s) && Fresh(s, ops) && ops != [] && ops[|ops| - 1].Tick?
    requires s.queue[s.cursor] !in Turns(s, ops[..|ops| - 1])
    requires Current(After(s, ops)) == Current(s)
    ensures |s.queue| <= m <= |After(s, ops).queue|
    ensures Turns(s, ops) == After(s, ops).queue[s.cursor + 1..m] + After(s, ops).queue[..s.cursor + 1]
  {
    var front := ops[..|ops| - 1];
    var was := After(s, front);
    TurnsTick(s, ops);
    RunWellFormed(s, front);
    m := RotationShape(s, front);
    assert was.queue[s.cursor] == s.queue[s.cursor];
    m := RoundClosed(was.queue, s.cursor, was.cursor, m, Turns(s, front), Turns(s, ops));
  }

  // Between two turns of a task, every other task that was in the queue at the
  // first of them has exactly one turn, and nobody has more than one, whatever
  // is created meanwhile.
  lemma FairRotation<T>(s: Sched<T>, ops: seq<Op<T>>, x: T)
    requires WellFormed(s) && Fresh(s, ops) && ops != [] && ops[|ops| - 1].Tick?
    requires s.queue[s.cursor] !in Turns(s, ops[..|ops| - 1])
    requires Current(After(s, ops)) == Current(s)
    ensures multiset(Turns(s, ops))[x] <= 1
    ensures x in s.queue ==> multiset(Turns(s, ops))[x] == 1
  {
    var m := FullRound(s, ops);
    var queue := After(s, ops).queue;
    RunWellFormed(s, ops);
    RoundOnce(queue, s.cursor, m, Turns(s, ops), x);
    PrefixMember(s.queue, queue, m, x);
  }

  lemma PrefixMember<T>(p: seq<T>, q: seq<T>, m: nat, x: T)
    requires p <= q && |p| <= m <= |q|
    ensures x in p ==> x in q[..m]
  {
  }

  // ---- Waiting time ----

  // As long as the switches do not run past the end of the queue as it was, the
  // cursor advances by one at each, whatever is created meanwhile.
  lemma {:induction false} StraightRun<T>(s: Sched<T>, ops: seq<Op<T>>)
    requires WellFormed(s) && Fresh(s, ops) && s.cursor + Ticks(ops) < |s.queue|
    ensures After(s, ops).cursor == s.cursor + Ticks(ops)
    ensures Turns(s, ops) == s.queue[s.cursor + 1..s.cursor + 1 + Ticks(ops)]
  {
    if ops != [] {
      var front := ops[..|ops| - 1];
      StraightRun(s, front);
      RunWellFormed(s, front);
      RunWellFormed(s, ops);
    } else {
      assert s.queue[s.cursor + 1..s.cursor + 1] == [];
    }
  }

  lemma LastOfSlice<T>(queue: seq<T>, task: T, lo: nat, hi: nat)
    requires task !in queue && lo <= hi <= |queue| + 1
    ensures task in (queue + [task])[lo..hi] <==> lo < hi == |queue| + 1
    ensures lo < hi == |queue| + 1 ==> (queue + [task])[lo..hi][hi - lo - 1] == task
  {
    var slice := (queue + [task])[lo..hi];
    forall i | 0 <= i < |slice|
      ensures slice[i] == task <==> lo + i == |queue|
    {
      assert lo + i < |queue| ==> slice[i] == queue[lo + i];
    }
    if lo < hi == |queue| + 1 {
      assert slice[hi - lo - 1] == task;
    }
  }

  // A new task first runs at the switch whose number is the queue length before
  // it was added, less the cursor: never later than the queue length.
  lemma NewTaskWaits<T>(s: Sched<T>, task: T, esp: u32, ops: seq<Op<T>>)
    requires WellFormed(s) && task !in s.queue
    requires WellFormed(Apply(s, Spawn(task, esp))) && Fresh(Apply(s, Spawn(task, esp)), ops)
    requires Ticks(ops) <= |s.queue| - s.cursor
    ensures var turns := Turns(Apply(s, Spawn(task, esp)), ops);
            && |turns| == Ticks(ops)
            && (task in turns <==> Ticks(ops) == |s.queue| - s.cursor)
            && (task in turns ==> turns[|turns| - 1] == task)
  {
    var t := Apply(s, Spawn(task, esp));
    StraightRun(t, ops);
    LastOfSlice(s.queue, task, s.cursor + 1, s.cursor + 1 + Ticks(ops));
  }

  // ---- Saved contexts ----

  // One switch: who was interrupted, at what frame, who runs, from what frame.
  datatype Switch<T> = Switch(out: T, saved: u32, inn: T, resumed: u32)

  function Log<T(==)>(s: Sched<T>, ops: seq<Op<T>>): seq<Switch<T>>
    requires WellFormed(s) && Fresh(s, ops)
  {
    if ops == [] then []
    else
      var front, last := ops[..|ops| - 1], ops[|ops| - 1];
      RunWellFormed(s, front);
      RunWellFormed(s, ops);
      var was, now := After(s, front), After(s, ops);
      Log(s, front)
      + (match last
         case Spawn(_, _) => []
         case Tick(frame) =>
           [Switch(was.queue[was.cursor], frame, now.queue[now.cursor], now.esp[now.queue[now.cursor]])])
  }

  // The frame recorded when the task was last switched out.
  function LastSaved<T(==)>(log: seq<Switch<T>>, task: T): Option<u32> {
    if log == [] then None
    else if log[|log| - 1].out == task then Some(log[|log| - 1].saved)
    else LastSaved(log[..|log| - 1], task)
  }

  // The frame the task was created with.
  function Born<T(==)>(s: Sched<T>, ops: seq<Op<T>>, task: T): Option<u32> {
    if ops == [] then (if task in s.queue && task in s.esp then Some(s.esp[task]) else None)
    else if ops[|ops| - 1].Spawn? && ops[|ops| - 1].task == task then Some(ops[|ops| - 1].esp)
    else Born(s, ops[..|ops| - 1], task)
  }

  lemma LogStep<T>(s: Sched<T>, ops: seq<Op<T>>, task: T)
    requires WellFormed(s) && Fresh(s, ops) && ops != []
    requires WellFormed(After(s, ops[..|ops| - 1]))
    ensures var front, last := ops[..|ops| - 1], ops[|ops| - 1];
            var was := After(s, front);
            LastSaved(Log(s, ops), task)
            == if last.Tick? && was.queue[was.cursor] == task then Some(last.frame) else LastSaved(Log(s, front), task)
  {
    var front, log := ops[..|ops| - 1], Log(s, ops);
    if ops[|ops| - 1].Tick? {
      assert log[..|log| - 1] == Log(s, front);
    } else {
      assert log == Log(s, front);
    }
  }

  // For every queued task the saved stack pointer is the one recorded when it
  // was last switched out or, if it never was, the one it was created with.
  lemma {:induction false} SavedContexts<T>(s: Sched<T>, ops: seq<Op<T>>, task: T)
    requires WellFormed(s) && Fresh(s, ops) && task in After(s, ops).queue
    ensures task in After(s, ops).esp
    ensures match LastSaved(Log(s, ops), task)
            case Some(frame) => After(s, ops).esp[task] == frame
            case None => Born(s, ops, task) == Some(After(s, ops).esp[task])
  {
    RunWellFormed(s, ops);
    if ops != [] {
      var front, last := ops[..|ops| - 1], ops[|ops| - 1];
      RunWellFormed(s, front);
      if last.Spawn? && last.task == task {
        NeverOut(s, front, task);
      } else {
        SavedContexts(s, front, task);
      }
      LogStep(s, ops, task);
    }
  }

  // A task not in the queue was never switched out.
  lemma {:induction false} NeverOut<T>(s: Sched<T>, ops: seq<Op<T>>, task: T)
    requires WellFormed(s) && Fresh(s, ops) && task !in After(s, ops).queue
    ensures LastSaved(Log(s, ops), task) == None
  {
    RunWellFormed(s, ops);
    if ops != [] {
      var front, last := ops[..|ops| - 1], ops[|ops| - 1];
      RunWellFormed(s, front);
      NeverOut(s, front, task);
      LogStep(s, ops, task);
    }
  }

  // What the last switch of a run resumes is exactly the incoming task's context.
  lemma ResumedContext<T>(s: Sched<T>, ops: seq<Op<T>>)
    requires WellFormed(s) && Fresh(s, ops) && ops != [] && ops[|ops| - 1].Tick?
    ensures var log := Log(s, ops);
            && log != []
            && (match LastSaved(log, log[|log| - 1].inn)
                case Some(frame) => log[|log| - 1].resumed == frame
                case None => Born(s, ops, log[|log| - 1].inn) == Some(log[|log| - 1].resumed))
  {
    RunWellFormed(s, ops);
    var now := After(s, ops);
    SavedContexts(s, ops, now.queue[now.cursor]);
  }

  lemma {:induction false} NoTicksNoMove<T>(s: Sched<T>, ops: seq<Op<T>>)
    requires WellFormed(s) && Fresh(s, ops) && Ticks(ops) == 0
    ensures After(s, ops).cursor == s.cursor
  {
    if ops != [] {
      NoTicksNoMove(s, ops[..|ops| - 1]);
    }
  }

  lemma {:induction false} FirstTaskWasSaved<T>(s: Sched<T>, ops: seq<Op<T>>)
    requires WellFormed(s) && Fresh(s, ops) && Ticks(ops) > 0
    ensures LastSaved(Log(s, ops), s.queue[s.cursor]).Some?
  {
    var front, last := ops[..|ops| - 1], ops[|ops| - 1];
    RunWellFormed(s, front);
    RunWellFormed(s, ops);
    if Ticks(front) > 0 {
      FirstTaskWasSaved(s, front);
    } else {
      NoTicksNoMove(s, front);
    }
    LogStep(s, ops, s.queue[s.cursor]);
  }

  // The task running at the start is resumed only from a frame recorded when it
  // was switched out, so the placeholder in the idle task is never used.
  lemma FirstTaskResumed<T>(s: Sched<T>, ops: seq<Op<T>>)
    requires WellFormed(s) && Fresh(s, ops) && ops != [] && ops[|ops| - 1].Tick?
    requires Current(After(s, ops)) == Current(s)
    ensures var log := Log(s, ops);
            && log != [] && log[|log| - 1].inn == s.queue[s.cursor]
            && LastSaved(log, s.queue[s.cursor]) == Some(log[|log| - 1].resumed)
  {
    RunWellFormed(s, ops);
    FirstTaskWasSaved(s, ops);
    ResumedContext(s, ops);
  }
}
