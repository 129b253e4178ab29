/** The scheduler as the kernel runs it, its queue and current index updated in place. */
module RoundRobinScheduler {
  import opened Bytes
  import opened Outcome
  import opened SchedState
  import opened SchedTheorems

  class Scheduler {
    var tasks: seq<Task>
    var current: nat
    var cpu: Cpu  // the processor the switch acts on

    ghost function State(): Sched
      reads this
    {
      Sched(tasks, current, cpu)
    }

    constructor (onCpu: Cpu)
      ensures tasks == [] && current == 0 && cpu == onCpu
    {
      tasks, current, cpu := [], 0, onCpu;
    }

    method AddTask(task: Task)
      modifies this
      ensures State() == old(State()).(tasks := old(tasks) + [task])
    {
      tasks := tasks + [task];
    }

    method NextReady() returns (next: Option<nat>)
      requires current < |tasks| || tasks == []
      ensures next == NextOf(tasks, current)
      ensures next.Some? ==> next.value < |tasks|
    {
      var len := |tasks|;
      var i := 1;
      while i <= len
        invariant 1 <= i <= len + 1
        invariant len > 0 ==> NextOf(tasks, current) == ReadyFrom(tasks, current, i)
      {
        RingIndex(current, i, len);
        var idx := (current + i) % len;
        if tasks[idx].state == Ready {
          return Some(idx);
        }
        i := i + 1;
      }
      return None;
    }

    method ReapDead()
      requires current < |tasks| || (tasks == [] && current == 0)
      modifies this
      ensures State() == Reaped(old(State()))
    {
      ghost var ts, c := tasks, current;
      var i := |tasks|;
      while i > 0
        invariant 0 <= i <= |ts|
        invariant tasks == ts[..i] + Kept(ts, c, i, |ts|)
        invariant current == if c < i then c else i + |Kept(ts, c, i, c)|
        invariant cpu == old(cpu)
      {
        i := i - 1;
        assert tasks[i] == ts[i] && (i == current <==> i == c);
        if i != current && tasks[i].state == Dead {
          tasks := tasks[..i] + tasks[i + 1..];
          if i < current {
            current := current - 1;
          }
        } else {
          assert tasks == ts[..i] + ([ts[i]] + Kept(ts, c, i + 1, |ts|));
        }
      }
    }

    /** The loop that wakes the sleepers whose time has come. */
    method WakeSleepers(tick: nat)
      modifies this
      ensures State() == Woken(old(State()), tick)
    {
      var i := 0;
      while i < |tasks|
        invariant 0 <= i <= |tasks| == |old(tasks)|
        invariant forall k :: 0 <= k < i ==> tasks[k] == Wake(old(tasks)[k], tick)
        invariant forall k :: i <= k < |tasks| ==> tasks[k] == old(tasks)[k]
        invariant current == old(current) && cpu == old(cpu)
      {
        if tasks[i].state == Sleeping {
          match tasks[i].wakeAt {
            case Some(wakeAt) =>
              if tick >= wakeAt {
                tasks := tasks[i := tasks[i].(state := Ready)];
                tasks := tasks[i := tasks[i].(wakeAt := None)];
              }
            case None =>
          }
        }
        i := i + 1;
      }
      assert tasks == Woken(old(State()), tick).tasks;
    }

    /** Saves the stack pointer in the old task's record, and loads the new one and a nonzero CR3. */
    method SwitchContext(oldTask: nat, newSp: nat, newCr3: nat)
      requires oldTask < |tasks|
      modifies this
      ensures tasks == old(tasks)[oldTask := old(tasks)[oldTask].(stackPtr := old(cpu).sp)]
      ensures cpu == Cpu(newSp, if newCr3 != 0 then newCr3 else old(cpu).cr3, old(cpu).kernelStack)
      ensures current == old(current)
    {
      tasks := tasks[oldTask := tasks[oldTask].(stackPtr := cpu.sp)];
      if newCr3 != 0 {
        cpu := cpu.(cr3 := newCr3);
      }
      cpu := cpu.(sp := newSp);
    }

    method Schedule(now: nat)
      requires current < |tasks| || (tasks == [] && current == 0)
      modifies this
      ensures State() == Scheduled(old(State()), now)
      ensures old(Inv(State())) ==> Inv(State())
      ensures old(Inv(State())) && (exists j :: 0 <= j < |old(tasks)| && CanPick(old(tasks)[j], now)) ==>
        cpu.kernelStack == if tasks[current].kernelStackTop != 0 then tasks[current].kernelStackTop else old(cpu).kernelStack
    {
      hide Kept, Woken, Reaped;
      ScheduledOwn(State(), now);
      CurrentKept(State());
      ReapDead();
      WakeSleepers(now);
      var was := current;
      assert State() == Woken(Reaped(old(State())), now);
      ghost var ready := State();
      CandidatesPlaces(old(State()), now);
      var choice := NextReady();
      match choice {
        case None =>
        case Some(next) =>
          current := next;
          if tasks[was].state == Running {
            tasks := tasks[was := tasks[was].(state := Ready)];
          }
          tasks := tasks[next := tasks[next].(state := Running)];
          var newSp := tasks[next].stackPtr;
          var cr3ToLoad := if tasks[was].cr3 != tasks[next].cr3 then tasks[next].cr3 else 0;
          var kernelStack := tasks[next].kernelStackTop;
          if kernelStack != 0 {
            cpu := cpu.(kernelStack := kernelStack);
          }
          SwitchContext(was, newSp, cr3ToLoad);
          assert State() == Switched(ready, next);
      }
    }

    /** The first half of `sleep`: the release build's tick sum wraps at 64 bits. */
    method MarkSleeping(tick: nat, ticks: nat)
      requires current < |tasks|
      modifies this
      ensures State() == Next(old(State()), MarkSleep(tick, ticks))
    {
      tasks := tasks[current := tasks[current].(wakeAt := Some((tick + ticks) % U64))];
      tasks := tasks[current := tasks[current].(state := Sleeping)];
    }

    method Sleep(tick: nat, ticks: nat, now: nat)
      requires Inv(State())
      modifies this
      ensures State() == Scheduled(Next(old(State()), MarkSleep(tick, ticks)), now) && Inv(State())
    {
      hide Scheduled;
      StepInv(State(), MarkSleep(tick, ticks));
      MarkSleeping(tick, ticks);
      ScheduledInv(State(), now);
      Schedule(now);
    }

    /** The first half of `exit`. */
    method MarkExited()
      requires current < |tasks|
      modifies this
      ensures State() == Next(old(State()), MarkDead)
    {
      tasks := tasks[current := tasks[current].(state := Dead)];
    }

    method Exit(now: nat)
      requires Inv(State())
      modifies this
      ensures State() == Scheduled(Next(old(State()), MarkDead), now) && Inv(State())
    {
      hide Scheduled;
      StepInv(State(), MarkDead);
      MarkExited();
      ScheduledInv(State(), now);
      Schedule(now);
    }

    /** Any run of the locked sections, in any order, goes through the states of the model. */
    method Run(steps: seq<Step>)
      requires Inv(State()) && CanRun(State(), steps)
      modifies this
      ensures State() == Final(old(State()), steps) && Inv(State())
      decreases |steps|
    {
      hide Scheduled, Inv;
      if steps != [] {
        ghost var s := State();
        StepInv(s, steps[0]);
        CurrentInRange(s);
        match steps[0] {
          case Add(task) => AddTask(task);
          case Compute(sp) => cpu := cpu.(sp := sp);
          case MarkSleep(tick, ticks) => MarkSleeping(tick, ticks);
          case MarkDead => MarkExited();
          case Schedule(now) => Schedule(now);
        }
        assert State() == Next(s, steps[0]);
        Run(steps[1..]);
      }
    }
  }

  /** What is loaded after a call. */
  lemma ScheduledOwn(s: Sched, now: nat)
    requires s.current < |s.tasks| || (s.tasks == [] && s.current == 0)
    ensures Inv(s) ==> Inv(Scheduled(s, now))
    ensures Inv(s) && (exists j :: 0 <= j < |s.tasks| && CanPick(s.tasks[j], now)) ==>
      var s' := Scheduled(s, now);
      s'.current < |s'.tasks| &&
      s'.cpu.kernelStack == if s'.tasks[s'.current].kernelStackTop != 0 then s'.tasks[s'.current].kernelStackTop else s.cpu.kernelStack
  {
    hide Scheduled, Inv;
    if Inv(s) {
      ScheduledInv(s, now);
      if exists j :: 0 <= j < |s.tasks| && CanPick(s.tasks[j], now) {
        LoadsKernelStack(s, now);
      }
    }
  }

  lemma CurrentInRange(s: Sched)
    requires Inv(s)
    ensures s.current < |s.tasks|
  {
  }

  lemma CandidatesPlaces(s: Sched, now: nat)
    requires s.current < |s.tasks| || (s.tasks == [] && s.current == 0)
    ensures var c := Woken(Reaped(s), now);
      && (c.current < |c.tasks| || c.tasks == [])
      && (c.tasks != [] && NextOf(c.tasks, c.current).Some? ==> NextOf(c.tasks, c.current).value < |c.tasks|)
  {
    CurrentKept(s);
    var c := Woken(Reaped(s), now);
    if c.tasks != [] {
      NextIsNearest(c.tasks, c.current);
    }
  }

  /** The scheduler as `init` leaves it: one running kernel task. */
  method Boot(cr3: nat) returns (sched: Scheduler)
    requires cr3 != 0
    ensures fresh(sched) && sched.State() == Booted(cr3) && Inv(sched.State())
  {
    sched := new Scheduler(Cpu(0, cr3, 0));
    sched.AddTask(Task(0, Running, 0, cr3, 0, None));
  }
}
