/** The scheduler's own code: each locked section is a method that carries out the step of the same name. */
module SchedulerCode {
  import opened Bytes
  import opened Scheduler

  /** Where a cyclic scan that began just after `start` stands once it has looked at `k` tasks. */
  ghost predicate ScanAt(tasks: seq<Task>, start: nat, k: nat, next: nat)
    requires start < |tasks|
  {
    var n := |tasks|;
    && k <= n && next < n
    && (if k < n - 1 - start
        then next == start + 1 + k && FirstReady(tasks, start + 1, n) == FirstReady(tasks, next, n)
        else && FirstReady(tasks, start + 1, n) == None
             && (if k < n
                 then
                   next == k - (n - 1 - start) && FirstReady(tasks, 0, start + 1) == FirstReady(tasks, next, start + 1)
                 else FirstReady(tasks, 0, start + 1) == None))
  }

  lemma Wrap(x: nat, n: nat)
    requires x <= n && n > 0
    ensures x % n == if x == n then 0 else x
  {
  }

  lemma ScanStarts(tasks: seq<Task>, start: nat)
    requires start < |tasks|
    ensures ScanAt(tasks, start, 0, (start + 1) % |tasks|)
  {
    Wrap(start + 1, |tasks|);
  }

  lemma ScanMoves(tasks: seq<Task>, start: nat, k: nat, next: nat)
    requires start < |tasks| && k < |tasks| && ScanAt(tasks, start, k, next)
    ensures tasks[next].status == Ready ==> NextReady(tasks, start) == Some(next)
    ensures tasks[next].status != Ready ==> ScanAt(tasks, start, k + 1, (next + 1) % |tasks|)
  {
    Wrap(next + 1, |tasks|);
  }

  /** The round-robin search loop. */
  method FindReady(tasks: seq<Task>, start: nat) returns (found: Option<nat>)
    requires start < |tasks|
    ensures found == NextReady(tasks, start)
    ensures found.Some? ==> found.value < |tasks|
  {
    var next: nat := (start + 1) % |tasks|;
    ScanStarts(tasks, start);
    for k := 0 to |tasks|
      invariant next < |tasks|
      invariant ScanAt(tasks, start, k, next)
    {
      ScanMoves(tasks, start, k, next);
      if tasks[next].status == Ready {
        return Some(next);
      }
      next := (next + 1) % |tasks|;
    }
    return None;
  }

  /** Task ids are handed out once each, so a lookup by id meets at most one task. */
  ghost predicate IdsOk(s: State) {
    && (forall i | 0 <= i < |s.tasks| :: s.tasks[i].id < s.nextId)
    && (forall i, j | 0 <= i < j < |s.tasks| :: s.tasks[i].id != s.tasks[j].id)
  }

  function StatusCode(status: Status): nat {
    match status case Ready => 0 case Running => 1 case Terminated => 2
  }

  /** A twelve-word frame is already on the new kernel stack. */
  function UserTask(id: nat, userRsp: nat, stackSize: nat, kernelStackBottom: nat): Task {
    Task(id, kernelStackBottom + stackSize - 12 * 8, userRsp - stackSize, Ready,
         kernelStackBottom, kernelStackBottom + stackSize, 0, userRsp, 0)
  }

  function KernelTask(id: nat, stackBottom: nat, stackSize: nat): Task {
    Task(id, stackBottom + stackSize - 8 - 7 * 8, stackBottom, Ready, stackBottom, stackBottom + stackSize, 0, 0, 0)
  }

  class SchedulerState {
    var tasks: seq<Task>
    var cpus: seq<Cpu>
    var nextId: nat

    ghost function Abs(): State
      reads this
    {
      State(tasks, cpus, nextId)
    }

    ghost predicate Valid()
      reads this
    {
      Safe(Abs()) && IdsOk(Abs()) && KernelStacksOk(Abs())
    }

    constructor (cpus: seq<Cpu>)
      requires |cpus| > 0 && cpus[0].current == Some(0) && forall c | 1 <= c < |cpus| :: cpus[c].current == None
      ensures Initial(Abs()) && Valid() && this.cpus == cpus
    {
      this.cpus, tasks, nextId := cpus, [MainTask()], 1;
      new;
      InitialIsSafe(Abs());
    }

    method SwitchTask(c: nat) returns (outcome: SwitchOutcome)
      requires Valid() && c < |cpus|
      modifies this
      ensures (Abs(), outcome) == Switch(old(Abs()), c)
      ensures Valid()
    {
      StepKeepsKernelStacks(Abs(), Step.SwitchTask(c));
      StepKeepsSafe(Abs(), Step.SwitchTask(c));
      var currentIndex := cpus[c].current;
      var startIndex := if currentIndex.None? then 0 else currentIndex.value;
      var found := FindReady(tasks, startIndex);
      hide NextReady, FirstReady, Safe, Dispatch, KernelStacksOk;
      if found.None? {
        return if currentIndex.Some? && tasks[currentIndex.value].status == Terminated then Halted else Stayed;
      }
      if currentIndex == found {
        return Stayed;
      }
      HandOver(c, currentIndex, found.value);
      return Switched(found.value);
    }

    /** Statuses, the CPU's kernel stack, then save and restore of the user stack and GS base. */
    method HandOver(c: nat, currentIndex: Option<nat>, nextIndex: nat)
      requires IndicesOk(Abs()) && c < |cpus| && nextIndex < |tasks|
      requires currentIndex == cpus[c].current && currentIndex != Some(nextIndex)
      modifies this
      ensures Abs() == Dispatch(old(Abs()), c, nextIndex)
      ensures old(IdsOk(Abs())) ==> IdsOk(Abs())
    {
      hide KernelStacksOk;
      if currentIndex.Some? && tasks[currentIndex.value].status == Running {
        tasks := tasks[currentIndex.value := tasks[currentIndex.value].(status := Ready)];
      }
      tasks := tasks[nextIndex := tasks[nextIndex].(status := Running)];
      var cpu := cpus[c].(current := Some(nextIndex));
      if tasks[nextIndex].kernelStackTop != 0 {
        cpu := cpu.(kernelStack := tasks[nextIndex].kernelStackTop);
      }
      if currentIndex.Some? {
        tasks := tasks[currentIndex.value := tasks[currentIndex.value].(userRsp := cpu.userStack)];
      }
      cpu := cpu.(userStack := tasks[nextIndex].userRsp);
      if currentIndex.Some? {
        tasks := tasks[currentIndex.value := tasks[currentIndex.value].(gsBase := cpu.gsBase)];
      }
      cpu := cpu.(gsBase := tasks[nextIndex].gsBase);
      cpus := cpus[c := cpu];
      assert tasks == Dispatch(old(Abs()), c, nextIndex).tasks;
    }

    /** Two locked sections: mark, then switch away. */
    method TerminateTask(c: nat, code: nat) returns (outcome: SwitchOutcome)
      requires Valid() && c < |cpus|
      modifies this
      ensures (Abs(), outcome) == Switch(Terminate(old(Abs()), c, code), c)
      ensures Valid()
      ensures var i := old(cpus[c].current);
              i.Some? ==> i.value < |tasks| && tasks[i.value].status == Terminated && tasks[i.value].exitCode == code
    {
      ghost var before := Abs();
      StepKeepsSafe(Abs(), Step.TerminateTask(c, code));
      StepKeepsKernelStacks(Abs(), Step.TerminateTask(c, code));
      if cpus[c].current.Some? {
        var i := cpus[c].current.value;
        tasks := tasks[i := tasks[i].(status := Terminated)];
        tasks := tasks[i := tasks[i].(exitCode := code)];
      }
      assert tasks == Terminate(old(Abs()), c, code).tasks;
      ghost var marked := Abs();
      if before.cpus[c].current.Some? {
        var i := before.cpus[c].current.value;
        TerminatedStays(marked, Step.SwitchTask(c), i);
        ExitCodeAfter(marked, Step.SwitchTask(c), i);
      }
      outcome := SwitchTask(c);
    }

    /** `kernelStackBottom` is what the heap returned for the new kernel stack. */
    method AddNewUserTask(userRsp: nat, stackSize: nat, kernelStackBottom: nat) returns (id: nat)
      requires Valid()
      modifies this
      ensures id == old(nextId)
      ensures Abs() == AddTask(old(Abs()), UserTask(id, userRsp, stackSize, kernelStackBottom))
      ensures Valid() && |tasks| == |old(tasks)| + 1
      ensures var t := tasks[|old(tasks)|];
              && t.id == id && t.status == Ready && t.exitCode == 0
              && t.userRsp == userRsp && t.stackBottom == userRsp - stackSize && t.gsBase == 0
              && t.kernelStackBottom == kernelStackBottom && t.kernelStackTop == kernelStackBottom + stackSize
              && t.stackTop == t.kernelStackTop - 96
    {
      id := nextId;
      StepKeepsSafe(Abs(), NewTask(UserTask(id, userRsp, stackSize, kernelStackBottom)));
      StepKeepsKernelStacks(Abs(), NewTask(UserTask(id, userRsp, stackSize, kernelStackBottom)));
      nextId := nextId + 1;
      tasks := tasks + [UserTask(id, userRsp, stackSize, kernelStackBottom)];
    }

    method AddNewTask(stackBottom: nat, stackSize: nat)
      requires Valid()
      modifies this
      ensures Abs() == AddTask(old(Abs()), KernelTask(old(nextId), stackBottom, stackSize))
      ensures Valid() && |tasks| == |old(tasks)| + 1
      ensures var t := tasks[|old(tasks)|];
              && t.id == old(nextId) && t.status == Ready && t.exitCode == 0
              && t.stackBottom == t.kernelStackBottom == stackBottom && t.kernelStackTop == stackBottom + stackSize
              && t.stackTop == t.kernelStackTop - 64 && t.userRsp == 0 && t.gsBase == 0
    {
      StepKeepsSafe(Abs(), NewTask(KernelTask(nextId, stackBottom, stackSize)));
      StepKeepsKernelStacks(Abs(), NewTask(KernelTask(nextId, stackBottom, stackSize)));
      tasks := tasks + [KernelTask(nextId, stackBottom, stackSize)];
      nextId := nextId + 1;
    }

    method GetTaskStatus(taskId: nat) returns (r: nat)
      requires Valid()
      ensures forall i | 0 <= i < |tasks| && tasks[i].id == taskId ::
                && (tasks[i].status == Ready ==> r == 0) && (tasks[i].status == Running ==> r == 1)
                && (tasks[i].status == Terminated ==> r == 2)
      ensures (forall i | 0 <= i < |tasks| :: tasks[i].id != taskId) ==> r == 3
    {
      for i := 0 to |tasks|
        invariant forall j | 0 <= j < i :: tasks[j].id != taskId
      {
        if tasks[i].id == taskId {
          return StatusCode(tasks[i].status);
        }
      }
      return 3;
    }
  }
}
