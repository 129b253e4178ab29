/**
  Properties of the scheduler over every run: its invariant, who may be chosen, order and
  conservation of tasks, bounded waiting, and where a task goes on from when it is chosen again.
 */
module SchedTheorems {
  import opened Bytes
  import opened Outcome
  import opened SchedState

  // ---- the invariant ----------------------------------------------------------------------

  function CurrentTask(s: Sched): Task
    requires s.current < |s.tasks|
  {
    s.tasks[s.current]
  }

  /** Where reaping puts the task at `j`. */
  function PlaceAfter(s: Sched, j: nat): nat
    requires j <= |s.tasks|
  {
    |Kept(s.tasks, s.current, 0, j)|
  }

  /** Where the task at `k` after reaping was before. */
  lemma ReapedOrigin(s: Sched, k: nat) returns (j: nat)
    requires s.current < |s.tasks| && k < |Reaped(s).tasks|
    ensures j < |s.tasks| && Stays(s.tasks, s.current, j)
    ensures PlaceAfter(s, j) == k && Reaped(s).tasks[k] == s.tasks[j]
    ensures k == Reaped(s).current <==> j == s.current
  {
    j := KeptFrom(s.tasks, s.current, 0, k);
    if j < s.current {
      KeptOrder(s.tasks, s.current, j, s.current);
    } else if s.current < j {
      KeptOrder(s.tasks, s.current, s.current, j);
    }
  }

  lemma ReapedDistinct(s: Sched)
    requires s.current < |s.tasks| && DistinctIds(s.tasks)
    ensures DistinctIds(Reaped(s).tasks)
  {
    var r := Reaped(s);
    forall i: nat, k: nat | i < k < |r.tasks| ensures r.tasks[i].id != r.tasks[k].id {
      var a := ReapedOrigin(s, i);
      var b := ReapedOrigin(s, k);
      assert a != b;
    }
  }

  lemma ReapedInv(s: Sched)
    requires Inv(s)
    ensures Inv(Reaped(s))
  {
    hide Kept;
    var r := Reaped(s);
    CurrentKept(s);
    ReapedDistinct(s);
    forall k: nat | k < |r.tasks|
      ensures r.tasks[k].state == Running ==> k == r.current
      ensures r.tasks[k].state == Sleeping ==> r.tasks[k].wakeAt.Some?
      ensures r.tasks[k].state in {Ready, Running} ==> r.tasks[k].wakeAt == None
      ensures r.tasks[k].cr3 != 0
    {
      var j := ReapedOrigin(s, k);
    }
  }

  lemma WokenInv(s: Sched, tick: nat)
    requires Inv(s)
    ensures Inv(Woken(s, tick))
  {
  }

  lemma SwitchedInv(s: Sched, next: nat)
    requires Inv(s) && next < |s.tasks| && s.tasks[next].state == Ready
    ensures Inv(Switched(s, next))
  {
  }

  lemma ScheduledInv(s: Sched, tick: nat)
    requires Inv(s)
    ensures Inv(Scheduled(s, tick))
  {
    hide Kept, Reaped, Woken, Switched;
    CurrentKept(s);
    ReapedInv(s);
    WokenInv(Reaped(s), tick);
    var ready := Woken(Reaped(s), tick);
    NextIsNearest(ready.tasks, ready.current);
    var next := NextOf(ready.tasks, ready.current);
    if next.Some? {
      SwitchedInv(ready, next.value);
    }
  }

  lemma StepInv(s: Sched, step: Step)
    requires Inv(s) && Enabled(s, step)
    ensures Inv(Next(s, step))
  {
    hide Scheduled;
    if step.Schedule? {
      ScheduledInv(s, step.now);
    }
  }

  ghost predicate CanRun(s: Sched, steps: seq<Step>)
    requires Inv(s)
    decreases |steps|
  {
    steps == [] ||
    (Enabled(s, steps[0]) && (StepInv(s, steps[0]); CanRun(Next(s, steps[0]), steps[1..])))
  }

  /** The states a run goes through, the first one included. */
  ghost function States(s: Sched, steps: seq<Step>): (states: seq<Sched>)
    requires Inv(s) && CanRun(s, steps)
    ensures |states| == |steps| + 1 && states[0] == s
    decreases |steps|
  {
    if steps == [] then [s]
    else
      StepInv(s, steps[0]);
      [s] + States(Next(s, steps[0]), steps[1..])
  }

  ghost function Final(s: Sched, steps: seq<Step>): Sched
    requires Inv(s) && CanRun(s, steps)
  {
    States(s, steps)[|steps|]
  }

  /** Safety over every run. */
  lemma {:induction false} RunInv(s: Sched, steps: seq<Step>)
    requires Inv(s) && CanRun(s, steps)
    ensures forall k :: 0 <= k <= |steps| ==> Inv(States(s, steps)[k])
    decreases |steps|
  {
    hide Next, Enabled;
    if steps != [] {
      StepInv(s, steps[0]);
      RunInv(Next(s, steps[0]), steps[1..]);
    }
  }

  // ---- who is chosen ----------------------------------------------------------------------

  /** Ready, or asleep with the wake time reached. */
  predicate CanPick(t: Task, now: nat) {
    t.state == Ready || (t.state == Sleeping && t.wakeAt.Some? && now >= t.wakeAt.value)
  }

  /** The queue that `schedule` chooses from. */
  function Candidates(s: Sched, now: nat): (c: Sched)
    requires s.current < |s.tasks|
    ensures c.current < |c.tasks|
  {
    CurrentKept(s);
    Woken(Reaped(s), now)
  }

  lemma CandidateAt(s: Sched, now: nat, j: nat)
    requires Inv(s) && j < |s.tasks| && Stays(s.tasks, s.current, j)
    ensures var c, p := Candidates(s, now), PlaceAfter(s, j);
      && p < |c.tasks| && c.tasks[p] == Wake(s.tasks[j], now)
      && (p == c.current <==> j == s.current)
      && (c.tasks[p].state == Ready <==> CanPick(s.tasks[j], now))
  {
    KeptAt(s.tasks, s.current, j);
    if j < s.current {
      KeptOrder(s.tasks, s.current, j, s.current);
    } else if s.current < j {
      KeptOrder(s.tasks, s.current, s.current, j);
    }
  }

  /** The place in `s` of a candidate. */
  lemma CandidateOrigin(s: Sched, now: nat, p: nat) returns (j: nat)
    requires Inv(s) && p < |Candidates(s, now).tasks|
    ensures j < |s.tasks| && Stays(s.tasks, s.current, j) && PlaceAfter(s, j) == p
    ensures Candidates(s, now).tasks[p] == Wake(s.tasks[j], now)
    ensures p == Candidates(s, now).current <==> j == s.current
    ensures Candidates(s, now).tasks[p].state == Ready <==> CanPick(s.tasks[j], now)
  {
    hide Kept;
    CurrentKept(s);
    j := ReapedOrigin(s, p);
  }

  /** Where the task at `j` of the queue is after the call, and what the call does to it. */
  lemma ScheduledAt(s: Sched, now: nat, j: nat)
    requires Inv(s) && j < |s.tasks| && Stays(s.tasks, s.current, j)
    ensures var s', p := Scheduled(s, now), PlaceAfter(s, j);
      && p < |s'.tasks| && s'.tasks[p].id == s.tasks[j].id && s'.tasks[p].cr3 == s.tasks[j].cr3
      && s'.tasks[p].kernelStackTop == s.tasks[j].kernelStackTop
      && (p != s'.current ==> s'.tasks[p].state == (if j == s.current then Stopped(Wake(s.tasks[j], now)) else Wake(s.tasks[j], now)).state)
      && s'.tasks[p].wakeAt == Wake(s.tasks[j], now).wakeAt
      && (j != s.current ==> s'.tasks[p].stackPtr == s.tasks[j].stackPtr)
  {
    hide Kept, Woken, Reaped;
    CandidateAt(s, now, j);
    var c := Candidates(s, now);
    NextIsNearest(c.tasks, c.current);
  }

  /** Where a task of the queue after the call was before it. */
  lemma ScheduledOrigin(s: Sched, now: nat, p: nat) returns (j: nat)
    requires Inv(s) && p < |Scheduled(s, now).tasks|
    ensures j < |s.tasks| && Stays(s.tasks, s.current, j) && PlaceAfter(s, j) == p
    ensures Scheduled(s, now).tasks[p].id == s.tasks[j].id
  {
    hide Kept, Woken, Reaped;
    var c := Candidates(s, now);
    NextIsNearest(c.tasks, c.current);
    j := CandidateOrigin(s, now, p);
  }

  /**
    When some task can be picked, the one made current can be, and is then Running; a Dead task
    or one whose wake time is not reached is never picked. Otherwise the current task goes on.
   */
  lemma ScheduleChoice(s: Sched, now: nat)
    requires Inv(s)
    ensures var s' := Scheduled(s, now);
      && s'.current < |s'.tasks|
      && if exists j :: 0 <= j < |s.tasks| && CanPick(s.tasks[j], now) then
           && CurrentTask(s').state == Running
           && exists j :: 0 <= j < |s.tasks| && CanPick(s.tasks[j], now) && s.tasks[j].id == CurrentTask(s').id
         else
           CurrentTask(s') == CurrentTask(s) && s'.cpu == s.cpu
  {
    hide Kept;
    CurrentKept(s);
    var c := Candidates(s, now);
    NextIsNearest(c.tasks, c.current);
    var next := NextOf(c.tasks, c.current);
    if j: nat :| j < |s.tasks| && CanPick(s.tasks[j], now) {
      CandidateAt(s, now, j);
      var i := CandidateOrigin(s, now, next.value);
    } else {
      if next.Some? {
        var i := CandidateOrigin(s, now, next.value);
      }
      CandidateAt(s, now, s.current);
    }
  }

  // ---- bounded waiting --------------------------------------------------------------------

  /** Reaping brings no task that stays further from the current one. */
  lemma ReapedDistance(s: Sched, j: nat)
    requires s.current < |s.tasks| && j < |s.tasks| && j != s.current && Stays(s.tasks, s.current, j)
    ensures var r, p := Reaped(s), PlaceAfter(s, j);
      && r.current < |r.tasks| && p < |r.tasks| && p != r.current
      && Distance(r.current, p, |r.tasks|) <= Distance(s.current, j, |s.tasks|)
  {
    hide Kept;
    CurrentKept(s);
    KeptAt(s.tasks, s.current, j);
    if j < s.current {
      KeptOrder(s.tasks, s.current, j, s.current);
      KeptSplit(s.tasks, s.current, 0, s.current, |s.tasks|);
    } else {
      KeptOrder(s.tasks, s.current, s.current, j);
      KeptSplit(s.tasks, s.current, 0, s.current, j);
    }
  }

  /**
    Round robin: a waiting Ready task is chosen by the call, or is still Ready and strictly
    nearer to the current task, whatever was reaped or woken.
   */
  lemma RoundRobin(s: Sched, now: nat, j: nat)
    requires Inv(s) && j < |s.tasks| && j != s.current && s.tasks[j].state == Ready
    ensures var s', p := Scheduled(s, now), PlaceAfter(s, j);
      && p < |s'.tasks| && s'.current < |s'.tasks| && s'.tasks[p].id == s.tasks[j].id
      && (p == s'.current ||
          (s'.tasks[p].state == Ready && Distance(s'.current, p, |s'.tasks|) < Distance(s.current, j, |s.tasks|)))
  {
    hide Kept, Reaped;
    CandidateAt(s, now, j);
    ReapedDistance(s, j);
    ScheduledAt(s, now, j);
    var c := Candidates(s, now);
    NextIsNearest(c.tasks, c.current);
  }

  function Schedules(steps: seq<Step>): nat {
    if steps == [] then 0 else (if steps[0].Schedule? then 1 else 0) + Schedules(steps[1..])
  }

  function Adds(steps: seq<Step>): nat {
    if steps == [] then 0 else (if steps[0].Add? then 1 else 0) + Adds(steps[1..])
  }

  /** The task `id` is made current by the `k`-th step of the run. */
  ghost predicate ChosenAt(s: Sched, steps: seq<Step>, k: nat, id: nat)
    requires Inv(s) && CanRun(s, steps)
  {
    && k < |steps| && steps[k].Schedule?
    && var s' := States(s, steps)[k + 1];
       s'.current < |s'.tasks| && CurrentTask(s').id == id
  }

  /** A step of the run that remains is a step of the run. */
  lemma ChosenLater(s: Sched, steps: seq<Step>, k: nat, id: nat)
    requires Inv(s) && steps != [] && CanRun(s, steps)
    requires Inv(Next(s, steps[0])) && CanRun(Next(s, steps[0]), steps[1..])
    requires ChosenAt(Next(s, steps[0]), steps[1..], k, id)
    ensures ChosenAt(s, steps, k + 1, id)
  {
    hide Next, Inv;
  }

  /**
    Bounded waiting: in every run, a Ready task that is not the current one is chosen within as
    many calls of `schedule` as its distance in the ring from the current task, plus one for
    each task added on the way.
   */
  lemma {:induction false} BoundedWaiting(s: Sched, steps: seq<Step>, j: nat)
    requires Inv(s) && CanRun(s, steps)
    requires j < |s.tasks| && j != s.current && s.tasks[j].state == Ready
    requires Distance(s.current, j, |s.tasks|) + Adds(steps) <= Schedules(steps)
    ensures exists k :: 0 <= k < |steps| && ChosenAt(s, steps, k, s.tasks[j].id)
    decreases |steps|
  {
    hide Kept, Scheduled;
    WaitingMeansSteps(s, steps, j);
    StepInv(s, steps[0]);
    var next, id := Next(s, steps[0]), s.tasks[j].id;
    var p: nat := j;
    if steps[0].Schedule? {
      RoundRobin(s, steps[0].now, j);
      p := PlaceAfter(s, j);
    }
    if steps[0].Schedule? && p == next.current {
      assert ChosenAt(s, steps, 0, id);
    } else {
      BoundedWaiting(next, steps[1..], p);
      var k :| 0 <= k < |steps[1..]| && ChosenAt(next, steps[1..], k, id);
      ChosenLater(s, steps, k, id);
    }
  }

  lemma WaitingMeansSteps(s: Sched, steps: seq<Step>, j: nat)
    requires s.current < |s.tasks| && j < |s.tasks| && Distance(s.current, j, |s.tasks|) + Adds(steps) <= Schedules(steps)
    ensures steps != []
  {
  }

  // ---- order and conservation -------------------------------------------------------------

  ghost predicate IsBefore(tasks: seq<Task>, a: nat, b: nat) {
    exists i, j :: 0 <= i < j < |tasks| && tasks[i].id == a && tasks[j].id == b
  }

  /** No step of the run spawns a task with this identifier. */
  predicate NotAdded(steps: seq<Step>, id: nat) {
    forall i :: 0 <= i < |steps| && steps[i].Add? ==> steps[i].task.id != id
  }

  ghost predicate IsDead(s: Sched, id: nat) {
    exists i :: 0 <= i < |s.tasks| && s.tasks[i].id == id && s.tasks[i].state == Dead
  }

  /** A step removes a task only when it is Dead. */
  lemma StepKeeps(s: Sched, step: Step, id: nat)
    requires Inv(s) && HasId(s.tasks, id) && !IsDead(s, id)
    ensures HasId(Next(s, step).tasks, id)
  {
    hide Kept, Scheduled;
    var j: nat :| j < |s.tasks| && s.tasks[j].id == id;
    if step.Schedule? {
      ScheduledAt(s, step.now, j);
    } else {
      assert Next(s, step).tasks[j].id == id;
    }
  }

  /** No task is lost: one missing at the end of a run was Dead at some state of it. */
  lemma {:induction false} NoTaskLost(s: Sched, steps: seq<Step>, id: nat)
    requires Inv(s) && CanRun(s, steps) && HasId(s.tasks, id)
    requires !HasId(Final(s, steps).tasks, id)
    ensures exists k :: 0 <= k < |steps| && IsDead(States(s, steps)[k], id)
    decreases |steps|
  {
    hide Next, HasId, IsDead, Enabled;
    var states := States(s, steps);
    if IsDead(s, id) {
      assert IsDead(states[0], id);
    } else {
      StepInv(s, steps[0]);
      StepKeeps(s, steps[0], id);
      var next := Next(s, steps[0]);
      NoTaskLost(next, steps[1..], id);
      var k :| 0 <= k < |steps[1..]| && IsDead(States(next, steps[1..])[k], id);
      assert IsDead(states[k + 1], id);
    }
  }

  /** A step makes no task appear but the one added. */
  lemma StepAddsOnly(s: Sched, step: Step, id: nat)
    requires Inv(s) && !HasId(s.tasks, id) && (step.Add? ==> step.task.id != id)
    ensures !HasId(Next(s, step).tasks, id)
  {
    hide Kept, Scheduled;
    var s' := Next(s, step);
    forall p: nat | p < |s'.tasks| ensures s'.tasks[p].id != id {
      if step.Schedule? {
        var j := ScheduledOrigin(s, step.now, p);
      } else if p < |s.tasks| {
        assert s'.tasks[p].id == s.tasks[p].id;
      }
    }
  }

  lemma StepOrder(s: Sched, step: Step, a: nat, b: nat)
    requires Inv(s) && IsBefore(s.tasks, a, b)
    requires HasId(Next(s, step).tasks, a) && HasId(Next(s, step).tasks, b) && (step.Add? ==> step.task.id != a && step.task.id != b)
    ensures IsBefore(Next(s, step).tasks, a, b)
  {
    hide Kept, Scheduled;
    var s' := Next(s, step);
    var i, j :| 0 <= i < j < |s.tasks| && s.tasks[i].id == a && s.tasks[j].id == b;
    if step.Schedule? {
      var p: nat :| p < |s'.tasks| && s'.tasks[p].id == a;
      var q: nat :| q < |s'.tasks| && s'.tasks[q].id == b;
      var x := ScheduledOrigin(s, step.now, p);
      var y := ScheduledOrigin(s, step.now, q);
      assert x == i && y == j;
      KeptOrder(s.tasks, s.current, i, j);
    } else {
      assert s'.tasks[i].id == a && s'.tasks[j].id == b;
    }
  }

  lemma {:induction false} AbsentStays(s: Sched, steps: seq<Step>, id: nat)
    requires Inv(s) && CanRun(s, steps) && NotAdded(steps, id) && !HasId(s.tasks, id)
    ensures !HasId(Final(s, steps).tasks, id)
    decreases |steps|
  {
    hide Next, HasId, Enabled;
    if steps != [] {
      StepInv(s, steps[0]);
      StepAddsOnly(s, steps[0], id);
      AbsentStays(Next(s, steps[0]), steps[1..], id);
    }
  }

  /** Two tasks that last through a run keep their order in the queue. */
  lemma {:induction false} OrderKept(s: Sched, steps: seq<Step>, a: nat, b: nat)
    requires Inv(s) && CanRun(s, steps) && NotAdded(steps, a) && NotAdded(steps, b)
    requires IsBefore(s.tasks, a, b)
    requires HasId(Final(s, steps).tasks, a) && HasId(Final(s, steps).tasks, b)
    ensures IsBefore(Final(s, steps).tasks, a, b)
    decreases |steps|
  {
    hide Next, HasId, IsBefore, Enabled;
    if steps != [] {
      StepInv(s, steps[0]);
      var next := Next(s, steps[0]);
      if !HasId(next.tasks, a) {
        AbsentStays(next, steps[1..], a);
      } else if !HasId(next.tasks, b) {
        AbsentStays(next, steps[1..], b);
      } else {
        StepOrder(s, steps[0], a, b);
        OrderKept(next, steps[1..], a, b);
      }
    }
  }

  // ---- dead and sleeping tasks ------------------------------------------------------------

  /** Tasks with this identifier are Dead and not current. */
  ghost predicate DeadOrGone(s: Sched, id: nat) {
    forall i :: 0 <= i < |s.tasks| && s.tasks[i].id == id ==> s.tasks[i].state == Dead && i != s.current
  }

  lemma StepDead(s: Sched, step: Step, id: nat)
    requires Inv(s) && DeadOrGone(s, id) && (step.Add? ==> step.task.id != id)
    ensures DeadOrGone(Next(s, step), id)
  {
    hide Kept, Scheduled;
    var s' := Next(s, step);
    forall p: nat | p < |s'.tasks| && s'.tasks[p].id == id ensures s'.tasks[p].state == Dead && p != s'.current {
      if step.Schedule? {
        var j := ScheduledOrigin(s, step.now, p);
        assert false;
      } else {
        assert s.tasks[p].id == id;
      }
    }
  }

  /** A Dead task that is not current is never current again. */
  lemma {:induction false} DeadNeverRuns(s: Sched, steps: seq<Step>, id: nat)
    requires Inv(s) && CanRun(s, steps) && NotAdded(steps, id) && DeadOrGone(s, id)
    ensures forall k :: 0 <= k <= |steps| ==> DeadOrGone(States(s, steps)[k], id)
    decreases |steps|
  {
    hide Next, DeadOrGone, Enabled;
    if steps != [] {
      StepInv(s, steps[0]);
      StepDead(s, steps[0], id);
      DeadNeverRuns(Next(s, steps[0]), steps[1..], id);
    }
  }

  /** `exit` ends the current task for good as soon as another task can be picked. */
  lemma ExitEnds(s: Sched, now: nat, j: nat)
    requires Inv(s) && j < |s.tasks| && j != s.current && CanPick(s.tasks[j], now)
    ensures DeadOrGone(Scheduled(Next(s, MarkDead), now), CurrentTask(s).id)
  {
    hide Kept, Woken, Reaped;
    var m := Next(s, MarkDead);
    StepInv(s, MarkDead);
    var s' := Scheduled(m, now);
    var c := Candidates(m, now);
    CandidateAt(m, now, j);
    NextIsNearest(c.tasks, c.current);
    forall p: nat | p < |s'.tasks| && s'.tasks[p].id == CurrentTask(s).id
      ensures s'.tasks[p].state == Dead && p != s'.current
    {
      var i := CandidateOrigin(m, now, p);
      assert i == s.current;
    }
  }

  /** The task is asleep until `wake` and not current. */
  ghost predicate Asleep(s: Sched, id: nat, wake: nat) {
    exists i :: 0 <= i < |s.tasks| && s.tasks[i].id == id && i != s.current
      && s.tasks[i].state == Sleeping && s.tasks[i].wakeAt == Some(wake)
  }

  lemma StepAsleep(s: Sched, step: Step, id: nat, wake: nat)
    requires Inv(s) && Asleep(s, id, wake) && (step.Schedule? ==> step.now < wake)
    ensures Asleep(Next(s, step), id, wake)
  {
    hide Kept, Woken, Reaped;
    var s' := Next(s, step);
    var j: nat :| j < |s.tasks| && s.tasks[j].id == id && j != s.current
      && s.tasks[j].state == Sleeping && s.tasks[j].wakeAt == Some(wake);
    if step.Schedule? {
      var p := PlaceAfter(s, j);
      var c := Candidates(s, step.now);
      CandidateAt(s, step.now, j);
      NextIsNearest(c.tasks, c.current);
      assert s'.tasks[p].id == id && s'.tasks[p].state == Sleeping;
    } else {
      assert s'.tasks[j].id == id;
    }
  }

  /** A sleeping task is not chosen before its wake time. */
  lemma {:induction false} SleepLasts(s: Sched, steps: seq<Step>, id: nat, wake: nat)
    requires Inv(s) && CanRun(s, steps) && Asleep(s, id, wake)
    requires forall i :: 0 <= i < |steps| && steps[i].Schedule? ==> steps[i].now < wake
    ensures forall k :: 0 <= k <= |steps| ==> Asleep(States(s, steps)[k], id, wake)
    decreases |steps|
  {
    hide Next, Asleep, Enabled;
    if steps != [] {
      StepInv(s, steps[0]);
      StepAsleep(s, steps[0], id, wake);
      SleepLasts(Next(s, steps[0]), steps[1..], id, wake);
    }
  }

  /**
    `sleep` gives up the processor exactly when another task can be picked: without one it
    returns at once, with its task still marked asleep.
   */
  lemma SleepYields(s: Sched, tick: nat, ticks: nat, now: nat)
    requires Inv(s) && now < (tick + ticks) % U64
    ensures var s' := Scheduled(Next(s, MarkSleep(tick, ticks)), now);
      s'.current < |s'.tasks| &&
      (Asleep(s', CurrentTask(s).id, (tick + ticks) % U64) <==>
        exists j :: 0 <= j < |s.tasks| && j != s.current && CanPick(s.tasks[j], now))
  {
    hide Kept, Woken, Reaped;
    var m, id, wake := Next(s, MarkSleep(tick, ticks)), CurrentTask(s).id, (tick + ticks) % U64;
    StepInv(s, MarkSleep(tick, ticks));
    var s', c := Scheduled(m, now), Candidates(m, now);
    NextIsNearest(c.tasks, c.current);
    CandidateAt(m, now, m.current);
    ScheduledInv(m, now);
    if j: nat :| j < |s.tasks| && j != s.current && CanPick(s.tasks[j], now) {
      CandidateAt(m, now, j);
      assert s'.tasks[c.current].id == id && c.current != s'.current;
    } else {
      if NextOf(c.tasks, c.current).Some? {
        var i := CandidateOrigin(m, now, NextOf(c.tasks, c.current).value);
      }
      assert s' == c;
    }
  }

  // ---- where a task goes on ---------------------------------------------------------------

  /** The loaded page table is the chosen task's, as long as a zero CR3 is never to be loaded. */
  lemma SwitchedCr3(s: Sched, next: nat)
    requires s.current < |s.tasks| && next < |s.tasks| && s.cpu.cr3 == CurrentTask(s).cr3
    ensures Switched(s, next).cpu.cr3 == s.tasks[next].cr3 <==> s.tasks[next].cr3 != 0 || CurrentTask(s).cr3 == 0
  {
  }

  /** A call that picks a task loads that task's kernel stack, or leaves the one loaded when it has none. */
  lemma LoadsKernelStack(s: Sched, now: nat)
    requires Inv(s) && exists j :: 0 <= j < |s.tasks| && CanPick(s.tasks[j], now)
    ensures var s' := Scheduled(s, now);
      s'.current < |s'.tasks| &&
      s'.cpu.kernelStack == if CurrentTask(s').kernelStackTop != 0 then CurrentTask(s').kernelStackTop else s.cpu.kernelStack
  {
    hide Kept;
    var c := Candidates(s, now);
    NextIsNearest(c.tasks, c.current);
    var j: nat :| j < |s.tasks| && CanPick(s.tasks[j], now);
    CandidateAt(s, now, j);
  }

  /**
    In every run the task that is current has its own page table and, if it has one, its own
    kernel stack loaded.
   */
  lemma RunLoadsOwn(s: Sched, steps: seq<Step>, k: nat)
    requires Inv(s) && CanRun(s, steps) && k <= |steps|
    ensures var t := States(s, steps)[k];
      && t.current < |t.tasks| && t.cpu.cr3 == t.tasks[t.current].cr3
      && (t.tasks[t.current].kernelStackTop != 0 ==> t.cpu.kernelStack == t.tasks[t.current].kernelStackTop)
  {
    RunInv(s, steps);
  }

  /** The task stopped at `sp`, and is not current. */
  ghost predicate StoppedAt(s: Sched, id: nat, sp: nat) {
    exists i :: 0 <= i < |s.tasks| && s.tasks[i].id == id && i != s.current && s.tasks[i].stackPtr == sp
  }

  /** A task that is not current keeps its stack pointer until it is chosen or reaped. */
  lemma StepStopped(s: Sched, step: Step, id: nat, sp: nat)
    requires Inv(s) && StoppedAt(s, id, sp) && !IsDead(s, id)
    requires Inv(Next(s, step)) && CurrentTask(Next(s, step)).id != id
    ensures StoppedAt(Next(s, step), id, sp)
  {
    hide Kept, Scheduled;
    var s' := Next(s, step);
    var j: nat :| j < |s.tasks| && s.tasks[j].id == id && j != s.current && s.tasks[j].stackPtr == sp;
    if step.Schedule? {
      ScheduledAt(s, step.now, j);
      var p := PlaceAfter(s, j);
      assert s'.tasks[p].id == id && s'.tasks[p].stackPtr == sp;
    } else {
      assert s'.tasks[j].id == id && s'.tasks[j].stackPtr == sp;
    }
  }

  /** A task that is neither current nor Dead does not die. */
  lemma StepLives(s: Sched, step: Step, id: nat)
    requires Inv(s) && Enabled(s, step) && !IsDead(s, id) && CurrentTask(s).id != id
    ensures !IsDead(Next(s, step), id)
  {
    hide Kept, Scheduled;
    var s' := Next(s, step);
    forall p: nat | p < |s'.tasks| && s'.tasks[p].id == id ensures s'.tasks[p].state != Dead {
      if step.Schedule? {
        var j := ScheduledOrigin(s, step.now, p);
        ScheduledAt(s, step.now, j);
        ScheduledInv(s, step.now);
        ScheduleChoice(s, step.now);
      } else if p < |s.tasks| {
        assert s'.tasks[p].id == s.tasks[p].id;
      }
    }
  }

  lemma SwitchSaves(s: Sched, now: nat)
    requires Inv(s) && CurrentTask(s).state != Dead
    requires Inv(Scheduled(s, now)) && CurrentTask(Scheduled(s, now)).id != CurrentTask(s).id
    ensures StoppedAt(Scheduled(s, now), CurrentTask(s).id, s.cpu.sp) && !IsDead(Scheduled(s, now), CurrentTask(s).id)
  {
    hide Kept;
    var s', c := Scheduled(s, now), Candidates(s, now);
    CandidateAt(s, now, s.current);
    NextIsNearest(c.tasks, c.current);
    assert s'.tasks[c.current].id == CurrentTask(s).id && s'.tasks[c.current].stackPtr == s.cpu.sp;
  }

  lemma ChosenResumes(s: Sched, now: nat, id: nat, sp: nat)
    requires Inv(s) && StoppedAt(s, id, sp) && !IsDead(s, id)
    requires Inv(Scheduled(s, now)) && CurrentTask(Scheduled(s, now)).id == id
    ensures Scheduled(s, now).cpu.sp == sp
  {
    hide Kept, Reaped;
    var j: nat :| j < |s.tasks| && s.tasks[j].id == id && j != s.current && s.tasks[j].stackPtr == sp;
    var c := Candidates(s, now);
    ScheduledAt(s, now, j);
    CandidateAt(s, now, j);
    NextIsNearest(c.tasks, c.current);
  }

  lemma {:induction false} StoppedThrough(s: Sched, steps: seq<Step>, id: nat, sp: nat)
    requires Inv(s) && CanRun(s, steps) && StoppedAt(s, id, sp) && !IsDead(s, id)
    requires forall k :: 0 <= k <= |steps| ==>
      States(s, steps)[k].current < |States(s, steps)[k].tasks| && CurrentTask(States(s, steps)[k]).id != id
    ensures StoppedAt(Final(s, steps), id, sp) && !IsDead(Final(s, steps), id)
    decreases |steps|
  {
    hide Next, StoppedAt, IsDead, Enabled;
    if steps != [] {
      StepInv(s, steps[0]);
      var next := Next(s, steps[0]);
      assert States(s, steps)[0] == s && States(s, steps)[1] == next;
      StepStopped(s, steps[0], id, sp);
      StepLives(s, steps[0], id);
      forall k: nat | k <= |steps| - 1
        ensures States(next, steps[1..])[k].current < |States(next, steps[1..])[k].tasks|
        ensures CurrentTask(States(next, steps[1..])[k]).id != id
      {
        assert States(next, steps[1..])[k] == States(s, steps)[k + 1];
      }
      StoppedThrough(next, steps[1..], id, sp);
    }
  }

  /**
    A task switched away from, and chosen again after any run in which it was not current, goes
    on from the stack pointer it had.
   */
  lemma ResumesWhereItStopped(s: Sched, now: nat, steps: seq<Step>, later: nat)
    requires Inv(s) && CurrentTask(s).state != Dead
    requires var s1 := Scheduled(s, now); Inv(s1) && CanRun(s1, steps)
    requires var s1 := Scheduled(s, now);
      forall k :: 0 <= k <= |steps| ==>
        States(s1, steps)[k].current < |States(s1, steps)[k].tasks| && CurrentTask(States(s1, steps)[k]).id != CurrentTask(s).id
    requires var s2 := Final(Scheduled(s, now), steps);
      Inv(s2) && Inv(Scheduled(s2, later)) && CurrentTask(Scheduled(s2, later)).id == CurrentTask(s).id
    ensures Scheduled(Final(Scheduled(s, now), steps), later).cpu.sp == s.cpu.sp
  {
    hide Scheduled, CanRun;
    var s1 := Scheduled(s, now);
    assert States(s1, steps)[0] == s1;
    SwitchSaves(s, now);
    StoppedThrough(s1, steps, CurrentTask(s).id, s.cpu.sp);
    ChosenResumes(Final(s1, steps), later, CurrentTask(s).id, s.cpu.sp);
  }

  lemma FirstStep(s: Sched, step: Step, rest: seq<Step>)
    requires Inv(s) && Enabled(s, step) && Inv(Next(s, step)) && CanRun(Next(s, step), rest)
    ensures CanRun(s, [step] + rest) && Final(s, [step] + rest) == Final(Next(s, step), rest)
  {
    hide Next, Enabled;
    assert ([step] + rest)[1..] == rest;
  }

  lemma LastStep(s: Sched, now: nat)
    requires Inv(s)
    ensures CanRun(s, [Schedule(now)]) && Final(s, [Schedule(now)]) == Scheduled(s, now)
  {
    hide Scheduled;
    StepInv(s, Schedule(now));
    FirstStep(s, Schedule(now), []);
  }

  /**
    A call that picks a task loads the stack pointer saved for it, except when it picks the
    running task again: that one's record is read before it is saved, so the load is right only
    if the stack pointer has not moved since the last save.
   */
  lemma LoadsSavedPointer(s: Sched, now: nat)
    requires Inv(s) && exists j :: 0 <= j < |s.tasks| && CanPick(s.tasks[j], now)
    ensures var s' := Scheduled(s, now);
      s'.current < |s'.tasks| &&
      (s'.cpu.sp == CurrentTask(s').stackPtr <==>
        CurrentTask(s).stackPtr == s.cpu.sp || exists j :: 0 <= j < |s.tasks| && j != s.current && CanPick(s.tasks[j], now))
  {
    hide Kept;
    var c := Candidates(s, now);
    NextIsNearest(c.tasks, c.current);
    CandidateAt(s, now, s.current);
    if j: nat :| j < |s.tasks| && j != s.current && CanPick(s.tasks[j], now) {
      CandidateAt(s, now, j);
    } else {
      var k: nat :| k < |s.tasks| && CanPick(s.tasks[k], now);
      var i := CandidateOrigin(s, now, NextOf(c.tasks, c.current).value);
    }
  }

  /** The scheduler as it starts: the kernel's own task, running. */
  function Booted(cr3: nat): Sched {
    Sched([Task(0, Running, 0, cr3, 0, None)], 0, Cpu(0, cr3, 0))
  }

  /** A lone task that sleeps and wakes is sent back to where its record, not its stack, says. */
  lemma LoneTaskReloadsStale(cr3: nat, sp: nat)
    requires cr3 != 0 && sp != 0
    ensures var steps := [Compute(sp), MarkSleep(0, 5), Schedule(5)];
      && Inv(Booted(cr3)) && CanRun(Booted(cr3), steps)
      && Final(Booted(cr3), steps).cpu.sp != sp
  {
    var s0 := Booted(cr3);
    var s1 := Next(s0, Compute(sp));
    var s2 := Next(s1, MarkSleep(0, 5));
    var s3 := Next(s2, Schedule(5));
    StepInv(s0, Compute(sp));
    StepInv(s1, MarkSleep(0, 5));
    StepInv(s2, Schedule(5));
    assert CanPick(s2.tasks[0], 5);
    LoadsSavedPointer(s2, 5);
    ScheduleChoice(s2, 5);
    LastStep(s2, 5);
    FirstStep(s1, MarkSleep(0, 5), [Schedule(5)]);
    FirstStep(s0, Compute(sp), [MarkSleep(0, 5), Schedule(5)]);
    assert [Compute(sp)] + [MarkSleep(0, 5), Schedule(5)] == [Compute(sp), MarkSleep(0, 5), Schedule(5)];
    assert [MarkSleep(0, 5)] + [Schedule(5)] == [MarkSleep(0, 5), Schedule(5)];
  }
}
