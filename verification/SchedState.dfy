/**
  The round-robin scheduler as a state machine: what reaping, waking, choosing and switching do
  to the queue, and what holds over every run of them.
 */
module SchedState {
  import opened Bytes
  import opened Outcome

  datatype TaskState = Ready | Running | Sleeping | Dead

  datatype Task = Task(id: nat, state: TaskState, stackPtr: nat, cr3: nat, kernelStackTop: nat, wakeAt: Option<nat>)

  /** The registers a switch sets; `sp` is where the running task would go on from. */
  datatype Cpu = Cpu(sp: nat, cr3: nat, kernelStack: nat)

  datatype Sched = Sched(tasks: seq<Task>, current: nat, cpu: Cpu)

  // ---- reaping ----------------------------------------------------------------------------

  predicate Stays(tasks: seq<Task>, current: nat, i: nat)
    requires i < |tasks|
  {
    i == current || tasks[i].state != Dead
  }

  /** The tasks of `tasks[lo..hi]` that reaping leaves, in order. */
  function Kept(tasks: seq<Task>, current: nat, lo: nat, hi: nat): (kept: seq<Task>)
    requires lo <= hi <= |tasks|
    ensures |kept| <= hi - lo
    decreases hi - lo
  {
    if lo == hi then []
    else (if Stays(tasks, current, lo) then [tasks[lo]] else []) + Kept(tasks, current, lo + 1, hi)
  }

  function Reaped(s: Sched): Sched
    requires s.current <= |s.tasks|
  {
    s.(tasks := Kept(s.tasks, s.current, 0, |s.tasks|), current := |Kept(s.tasks, s.current, 0, s.current)|)
  }

  lemma {:induction false} KeptSplit(tasks: seq<Task>, current: nat, lo: nat, mid: nat, hi: nat)
    requires lo <= mid <= hi <= |tasks|
    ensures Kept(tasks, current, lo, hi) == Kept(tasks, current, lo, mid) + Kept(tasks, current, mid, hi)
    decreases mid - lo
  {
    if lo < mid {
      KeptSplit(tasks, current, lo + 1, mid, hi);
    }
  }

  /** A task that stays moves to the number of tasks kept before it. */
  lemma KeptAt(tasks: seq<Task>, current: nat, j: nat)
    requires j < |tasks| && Stays(tasks, current, j)
    ensures var kept, at := Kept(tasks, current, 0, |tasks|), |Kept(tasks, current, 0, j)|;
      at < |kept| && kept[at] == tasks[j]
  {
    KeptSplit(tasks, current, 0, j, |tasks|);
  }

  /** Tasks that stay keep their order. */
  lemma KeptOrder(tasks: seq<Task>, current: nat, i: nat, j: nat)
    requires i < j < |tasks| && Stays(tasks, current, i)
    ensures |Kept(tasks, current, 0, i)| < |Kept(tasks, current, 0, j)|
  {
    KeptSplit(tasks, current, 0, i, j);
  }

  /** Every task left was in the queue, and stayed. */
  lemma {:induction false} KeptFrom(tasks: seq<Task>, current: nat, lo: nat, k: nat) returns (j: nat)
    requires lo <= |tasks| && k < |Kept(tasks, current, lo, |tasks|)|
    ensures lo <= j < |tasks| && Stays(tasks, current, j)
    ensures |Kept(tasks, current, lo, j)| == k && Kept(tasks, current, lo, |tasks|)[k] == tasks[j]
    decreases |tasks| - lo
  {
    if Stays(tasks, current, lo) {
      if k == 0 {
        j := lo;
      } else {
        j := KeptFrom(tasks, current, lo + 1, k - 1);
      }
    } else {
      j := KeptFrom(tasks, current, lo + 1, k);
    }
  }

  // ---- waking -----------------------------------------------------------------------------

  function Wake(t: Task, tick: nat): Task {
    if t.state == Sleeping && t.wakeAt.Some? && tick >= t.wakeAt.value then t.(state := Ready, wakeAt := None) else t
  }

  function Woken(s: Sched, tick: nat): Sched {
    s.(tasks := seq(|s.tasks|, i requires 0 <= i < |s.tasks| => Wake(s.tasks[i], tick)))
  }

  // ---- choosing ---------------------------------------------------------------------------

  /** The place `i` steps after `current` in a ring of `len`. */
  function Ahead(current: nat, i: nat, len: nat): nat
    requires current < len && i <= len
  {
    if current + i < len then current + i else current + i - len
  }

  /** How many steps after `current` the place `j` comes, at least one. */
  function Distance(current: nat, j: nat, len: nat): nat
    requires current < len && j < len
  {
    if j > current then j - current else len - current + j
  }

  lemma TwiceAtMost(q: nat, len: nat)
    ensures q >= 2 ==> q * len >= 2 * len
  {
  }

  /** What `(current + i) % len` comes to. */
  lemma RingIndex(current: nat, i: nat, len: nat)
    requires current < len && i <= len
    ensures (current + i) % len == Ahead(current, i, len)
  {
    var x, q := current + i, (current + i) / len;
    assert x == q * len + x % len;
    TwiceAtMost(q, len);
  }

  /** The first Ready place from `i` steps after `current` on. */
  function ReadyFrom(tasks: seq<Task>, current: nat, i: nat): Option<nat>
    requires current < |tasks| && 1 <= i <= |tasks| + 1
    decreases |tasks| + 1 - i
  {
    if i > |tasks| then None
    else if tasks[Ahead(current, i, |tasks|)].state == Ready then Some(Ahead(current, i, |tasks|))
    else ReadyFrom(tasks, current, i + 1)
  }

  function NextOf(tasks: seq<Task>, current: nat): Option<nat>
    requires current < |tasks| || tasks == []
  {
    if tasks == [] then None else ReadyFrom(tasks, current, 1)
  }

  lemma {:induction false} ReadyFromNearest(tasks: seq<Task>, current: nat, i: nat, j: nat)
    requires current < |tasks| && 1 <= i <= |tasks| + 1 && j < |tasks|
    requires tasks[j].state == Ready && i <= Distance(current, j, |tasks|)
    ensures var r := ReadyFrom(tasks, current, i);
      && r.Some? && r.value < |tasks| && tasks[r.value].state == Ready
      && Distance(current, r.value, |tasks|) <= Distance(current, j, |tasks|)
    decreases |tasks| + 1 - i
  {
    if tasks[Ahead(current, i, |tasks|)].state != Ready {
      ReadyFromNearest(tasks, current, i + 1, j);
    }
  }

  lemma {:induction false} ReadyFromIsReady(tasks: seq<Task>, current: nat, i: nat)
    requires current < |tasks| && 1 <= i <= |tasks| + 1
    requires ReadyFrom(tasks, current, i).Some?
    ensures var r := ReadyFrom(tasks, current, i).value; r < |tasks| && tasks[r].state == Ready
    decreases |tasks| + 1 - i
  {
    if tasks[Ahead(current, i, |tasks|)].state != Ready {
      ReadyFromIsReady(tasks, current, i + 1);
    }
  }

  /** The choice is the Ready task that comes first after `current` in the ring; there is none only when none is Ready. */
  lemma NextIsNearest(tasks: seq<Task>, current: nat)
    requires current < |tasks|
    ensures var r := NextOf(tasks, current);
      && (r.Some? ==> r.value < |tasks| && tasks[r.value].state == Ready)
      && forall j :: 0 <= j < |tasks| && tasks[j].state == Ready ==>
           r.Some? && Distance(current, r.value, |tasks|) <= Distance(current, j, |tasks|)
  {
    var r := NextOf(tasks, current);
    if r.Some? {
      ReadyFromIsReady(tasks, current, 1);
    }
    forall j | 0 <= j < |tasks| && tasks[j].state == Ready
      ensures r.Some? && Distance(current, r.value, |tasks|) <= Distance(current, j, |tasks|)
    {
      ReadyFromNearest(tasks, current, 1, j);
    }
  }

  // ---- switching --------------------------------------------------------------------------

  function Stopped(t: Task): Task {
    if t.state == Running then t.(state := Ready) else t
  }

  /** Tasks are marked, the stack pointer to load is read, and only then is the old one saved. */
  function Switched(s: Sched, next: nat): Sched
    requires s.current < |s.tasks| && next < |s.tasks|
  {
    var stopped := s.tasks[s.current := Stopped(s.tasks[s.current])];
    var marked := stopped[next := stopped[next].(state := Running)];
    var newCr3 := if s.tasks[s.current].cr3 != s.tasks[next].cr3 then s.tasks[next].cr3 else 0;
    var kernelStack := marked[next].kernelStackTop;
    Sched(marked[s.current := marked[s.current].(stackPtr := s.cpu.sp)],
          next,
          Cpu(marked[next].stackPtr,
              if newCr3 != 0 then newCr3 else s.cpu.cr3,
              if kernelStack != 0 then kernelStack else s.cpu.kernelStack))
  }

  /** One call of `schedule` at a given tick. */
  function Scheduled(s: Sched, tick: nat): Sched
    requires s.current < |s.tasks| || (s.tasks == [] && s.current == 0)
  {
    CurrentKept(s);
    var ready := Woken(Reaped(s), tick);
    match NextOf(ready.tasks, ready.current)
    case None => ready
    case Some(next) =>
      NextIsNearest(ready.tasks, ready.current);
      Switched(ready, next)
  }

  /** Reaping leaves `current` on the same task. */
  lemma CurrentKept(s: Sched)
    requires s.current < |s.tasks| || (s.tasks == [] && s.current == 0)
    ensures var r := Reaped(s);
      if s.tasks == [] then r == s else r.current < |r.tasks| && r.tasks[r.current] == s.tasks[s.current]
  {
    if s.tasks != [] {
      KeptAt(s.tasks, s.current, s.current);
    }
  }

  // ---- steps and runs ---------------------------------------------------------------------

  /**
    What can happen to the scheduler, each under its lock: a task is spawned, the running task
    moves its stack pointer, starts to sleep or exits, or `schedule` is called.
   */
  datatype Step =
    | Add(task: Task)
    | Compute(sp: nat)
    | MarkSleep(tick: nat, ticks: nat)
    | MarkDead
    | Schedule(now: nat)

  ghost predicate Enabled(s: Sched, step: Step) {
    step.Add? ==>
      && step.task.state == Ready && step.task.wakeAt == None && step.task.cr3 != 0
      && !HasId(s.tasks, step.task.id)
  }

  function Next(s: Sched, step: Step): Sched
    requires s.current < |s.tasks|
  {
    match step
    case Add(task) => s.(tasks := s.tasks + [task])
    case Compute(sp) => s.(cpu := s.cpu.(sp := sp))
    case MarkSleep(tick, ticks) =>
      s.(tasks := s.tasks[s.current := s.tasks[s.current].(state := Sleeping, wakeAt := Some((tick + ticks) % U64))])
    case MarkDead => s.(tasks := s.tasks[s.current := s.tasks[s.current].(state := Dead)])
    case Schedule(now) => Scheduled(s, now)
  }

  ghost predicate HasId(tasks: seq<Task>, id: nat) {
    exists i :: 0 <= i < |tasks| && tasks[i].id == id
  }

  ghost predicate DistinctIds(tasks: seq<Task>) {
    forall i, j :: 0 <= i < j < |tasks| ==> tasks[i].id != tasks[j].id
  }

  /**
    `current` is in range, only the current task is Running, a sleeping task has a wake time and a
    ready or running one has none, identifiers are unique, and the loaded page table is the
    current task's, as is the loaded kernel stack if it has one.
   */
  ghost predicate Inv(s: Sched) {
    && s.current < |s.tasks|
    && DistinctIds(s.tasks)
    && (forall i :: 0 <= i < |s.tasks| && s.tasks[i].state == Running ==> i == s.current)
    && (forall i :: 0 <= i < |s.tasks| && s.tasks[i].state == Sleeping ==> s.tasks[i].wakeAt.Some?)
    && (forall i :: 0 <= i < |s.tasks| && s.tasks[i].state in {Ready, Running} ==> s.tasks[i].wakeAt == None)
    && (forall i :: 0 <= i < |s.tasks| ==> s.tasks[i].cr3 != 0)
    && s.cpu.cr3 == s.tasks[s.current].cr3
    && (s.tasks[s.current].kernelStackTop != 0 ==> s.cpu.kernelStack == s.tasks[s.current].kernelStackTop)
  }
}
