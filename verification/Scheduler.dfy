/**
 The round-robin scheduler.  Everything done while SCHEDULER_LOCK is held is one
 atomic step of a machine with any number of CPUs; a run is any interleaving of
 such steps.
 */
module Scheduler {
  import opened Bytes

  datatype Status = Ready | Running | Terminated

  datatype Task = Task(
    id: nat, stackTop: int, stackBottom: int, status: Status, kernelStackBottom: nat, kernelStackTop: nat,
    gsBase: nat, userRsp: nat, exitCode: nat)

  /** `current` is None where the source stores usize::MAX; `gsBase` is the CPU's inactive GS base register. */
  datatype Cpu = Cpu(current: Option<nat>, kernelStack: nat, userStack: nat, gsBase: nat)

  datatype State = State(tasks: seq<Task>, cpus: seq<Cpu>, nextId: nat)

  // ---------------------------------------------------------------- choosing the next task

  function FirstReady(tasks: seq<Task>, lo: nat, hi: nat): (r: Option<nat>)
    requires lo <= hi <= |tasks|
    ensures r.Some? ==> lo <= r.value < hi && tasks[r.value].status == Ready
    ensures forall i | lo <= i < (if r.Some? then r.value else hi) :: tasks[i].status != Ready
    decreases hi - lo, |tasks|
  {
    if lo == hi then None else if tasks[lo].status == Ready then Some(lo) else FirstReady(tasks, lo + 1, hi)
  }

  /** Round robin: the first Ready task after `start`, going round to `start` itself last. */
  function NextReady(tasks: seq<Task>, start: nat): Option<nat>
    requires start < |tasks|
  {
    var after := FirstReady(tasks, start + 1, |tasks|);
    if after.Some? then after else FirstReady(tasks, 0, start + 1)
  }

  function StartIndex(cpu: Cpu): nat {
    if cpu.current.Some? then cpu.current.value else 0
  }

  ghost predicate IndicesOk(s: State) {
    |s.tasks| > 0 && forall c | 0 <= c < |s.cpus| :: s.cpus[c].current.Some? ==> s.cpus[c].current.value < |s.tasks|
  }

  // ---------------------------------------------------------------- locked steps

  datatype SwitchOutcome = Stayed | Halted | Switched(task: nat)

  /** Hand CPU `c` from its current task to task `next`. */
  function Dispatch(s: State, c: nat, next: nat): State
    requires IndicesOk(s) && c < |s.cpus| && next < |s.tasks|
  {
    var cpu := s.cpus[c];
    var tasks1 :=
      if cpu.current.Some? then s.tasks[cpu.current.value := SwitchOut(s.tasks[cpu.current.value], cpu)] else s.tasks;
    var incoming := tasks1[next].(status := Running);
    var cpu1 := Cpu(Some(next), if incoming.kernelStackTop != 0 then incoming.kernelStackTop else cpu.kernelStack,
                    incoming.userRsp, incoming.gsBase);
    s.(tasks := tasks1[next := incoming], cpus := s.cpus[c := cpu1])
  }

  function SwitchOut(task: Task, cpu: Cpu): Task {
    task.(status := if task.status == Running then Ready else task.status,
          userRsp := cpu.userStack, gsBase := cpu.gsBase)
  }

  function Switch(s: State, c: nat): (State, SwitchOutcome)
    requires IndicesOk(s) && c < |s.cpus|
  {
    var cpu := s.cpus[c];
    var next := NextReady(s.tasks, StartIndex(cpu));
    if next.None? then
      (s, if cpu.current.Some? && s.tasks[cpu.current.value].status == Terminated then Halted else Stayed)
    else if next == cpu.current then (s, Stayed)
    else (Dispatch(s, c, next.value), Switched(next.value))
  }

  function Terminate(s: State, c: nat, code: nat): State
    requires IndicesOk(s) && c < |s.cpus|
  {
    if s.cpus[c].current.None? then s
    else
      var i := s.cpus[c].current.value;
      s.(tasks := s.tasks[i := s.tasks[i].(status := Terminated, exitCode := code)])
  }

  function AddTask(s: State, task: Task): State {
    s.(tasks := s.tasks + [task.(id := s.nextId, status := Ready, exitCode := 0)], nextId := s.nextId + 1)
  }

  /** What the current task of CPU `c` does to the CPU's user stack and GS base between locked steps. */
  function UserRuns(s: State, c: nat, rsp: nat, gs: nat): State
    requires c < |s.cpus|
  {
    s.(cpus := s.cpus[c := s.cpus[c].(userStack := rsp, gsBase := gs)])
  }

  datatype Step = SwitchTask(cpu: nat) | TerminateTask(cpu: nat, code: nat) | NewTask(task: Task) |
    UserCode(cpu: nat, rsp: nat, gs: nat)

  ghost predicate Enabled(s: State, step: Step) {
    step.NewTask? || step.cpu < |s.cpus|
  }

  ghost function Next(s: State, step: Step): State
    requires IndicesOk(s) && Enabled(s, step)
  {
    match step
    case SwitchTask(c) => Switch(s, c).0
    case TerminateTask(c, code) => Terminate(s, c, code)
    case NewTask(task) => AddTask(s, task)
    case UserCode(c, rsp, gs) => UserRuns(s, c, rsp, gs)
  }

  /** Which task this step starts running, if any. */
  ghost function Dispatched(s: State, step: Step): Option<nat>
    requires IndicesOk(s) && Enabled(s, step)
  {
    if step.SwitchTask? && Switch(s, step.cpu).1.Switched? then Some(Switch(s, step.cpu).1.task) else None
  }

  // ---------------------------------------------------------------- safety

  ghost predicate OnCpu(s: State, i: nat) {
    exists c | 0 <= c < |s.cpus| :: s.cpus[c].current == Some(i)
  }

  /**
   No task is current on two CPUs, a task that is current is not Ready, and every
   Running task is current somewhere.
   */
  ghost predicate Safe(s: State) {
    && IndicesOk(s)
    && (forall c | 0 <= c < |s.cpus| :: s.cpus[c].current.Some? ==> s.tasks[s.cpus[c].current.value].status != Ready)
    && (forall c, d | 0 <= c < |s.cpus| && 0 <= d < |s.cpus| && s.cpus[c].current.Some? ::
          s.cpus[c].current == s.cpus[d].current ==> c == d)
    && (forall i | 0 <= i < |s.tasks| :: s.tasks[i].status == Running ==> OnCpu(s, i))
  }

  function MainTask(): Task {
    Task(0, 0, 0, Running, 0, 0, 0, 0, 0)
  }

  /** After `init`: the boot CPU runs the main task, the others run nothing. */
  ghost predicate Initial(s: State) {
    && s.tasks == [MainTask()] && s.nextId == 1
    && |s.cpus| > 0 && s.cpus[0].current == Some(0)
    && forall c | 1 <= c < |s.cpus| :: s.cpus[c].current == None
  }

  lemma InitialIsSafe(s: State)
    requires Initial(s)
    ensures Safe(s)
  {
    assert s.cpus[0].current == Some(0);
  }

  /** A task that is chosen is never the CPU's own: the early return for that case is dead code. */
  lemma NextIsNotCurrent(s: State, c: nat)
    requires Safe(s) && c < |s.cpus|
    ensures NextReady(s.tasks, StartIndex(s.cpus[c])).Some? ==>
              NextReady(s.tasks, StartIndex(s.cpus[c])) != s.cpus[c].current
  {
  }

  lemma DispatchKeepsSafe(s: State, c: nat, next: nat)
    requires Safe(s) && c < |s.cpus| && next < |s.tasks| && s.tasks[next].status == Ready
    ensures Safe(Dispatch(s, c, next))
  {
    var t := Dispatch(s, c, next);
    assert t.cpus[c].current == Some(next);
    forall d | 0 <= d < |s.cpus| && d != c
      ensures t.cpus[d] == s.cpus[d] && s.cpus[d].current != Some(next)
    {
    }
    forall i | 0 <= i < |t.tasks| && t.tasks[i].status == Running
      ensures OnCpu(t, i)
    {
      if i != next {
        assert OnCpu(s, i);
        var d :| 0 <= d < |s.cpus| && s.cpus[d].current == Some(i);
        assert d != c;
        assert t.cpus[d].current == Some(i);
      }
    }
  }

  lemma StepKeepsSafe(s: State, step: Step)
    requires Safe(s) && Enabled(s, step)
    ensures Safe(Next(s, step))
  {
    var t := Next(s, step);
    if step.SwitchTask? {
      if Switch(s, step.cpu).1.Switched? {
        DispatchKeepsSafe(s, step.cpu, Switch(s, step.cpu).1.task);
      }
    } else {
      assert forall d | 0 <= d < |s.cpus| :: t.cpus[d].current == s.cpus[d].current;
      forall i | 0 <= i < |t.tasks| && t.tasks[i].status == Running
        ensures OnCpu(t, i)
      {
        assert OnCpu(s, i);
        var d :| 0 <= d < |s.cpus| && s.cpus[d].current == Some(i);
        assert t.cpus[d].current == Some(i);
      }
    }
  }

  // ---------------------------------------------------------------- runs

  /** A run lists its states; step `k` leads from state `k` to state `k + 1`. */
  ghost predicate IsRun(states: seq<State>, steps: seq<Step>) {
    && |states| == |steps| + 1
    && Safe(states[0])
    && forall k | 0 <= k < |steps| ::
         IndicesOk(states[k]) && Enabled(states[k], steps[k]) && states[k + 1] == Next(states[k], steps[k])
  }

  lemma {:induction false} RunsAreSafe(states: seq<State>, steps: seq<Step>, k: nat)
    requires IsRun(states, steps) && k < |states|
    ensures Safe(states[k])
    decreases k
  {
    if k > 0 {
      RunsAreSafe(states, steps, k - 1);
      StepKeepsSafe(states[k - 1], steps[k - 1]);
    }
  }

  /**
   In every state of every run a task is Running exactly when some CPU's index names it
   and it is not Terminated.  The exception is real, as `TerminatedStaysCurrent` shows.
   */
  lemma RunningIffCurrent(states: seq<State>, steps: seq<Step>, k: nat, i: nat)
    requires IsRun(states, steps) && k < |states| && i < |states[k].tasks|
    ensures var s := states[k]; s.tasks[i].status == Running <==> OnCpu(s, i) && s.tasks[i].status != Terminated
    ensures forall c, d | 0 <= c < |states[k].cpus| && 0 <= d < |states[k].cpus| ::
              states[k].cpus[c].current == Some(i) && states[k].cpus[d].current == Some(i) ==> c == d
  {
    RunsAreSafe(states, steps, k);
  }

  /** A CPU whose task has ended keeps naming it, for ever if there is nothing else to run. */
  lemma TerminatedStaysCurrent(s: State, code: nat)
    requires Initial(s)
    ensures var t := Next(s, TerminateTask(0, code));
            && Safe(t) && OnCpu(t, 0) && t.tasks[0].status == Terminated
            && Switch(t, 0) == (t, Halted) && forall c | 0 < c < |t.cpus| :: Switch(t, c) == (t, Stayed)
  {
    InitialIsSafe(s);
    StepKeepsSafe(s, TerminateTask(0, code));
    assert Next(s, TerminateTask(0, code)).cpus[0].current == Some(0);
  }

  /** Terminated is for ever: the status never changes again and it is never dispatched. */
  lemma {:induction false} TerminatedForever(states: seq<State>, steps: seq<Step>, j: nat, k: nat, i: nat)
    requires IsRun(states, steps) && j <= k < |states|
    requires i < |states[j].tasks| && states[j].tasks[i].status == Terminated
    ensures i < |states[k].tasks| && states[k].tasks[i].status == Terminated
    ensures k < |steps| ==> Dispatched(states[k], steps[k]) != Some(i)
    decreases k - j
  {
    hide Safe, Enabled, Next, Dispatched;
    RunsAreSafe(states, steps, k);
    if j < k {
      TerminatedForever(states, steps, j, k - 1, i);
      RunsAreSafe(states, steps, k - 1);
      TerminatedStays(states[k - 1], steps[k - 1], i);
    }
    if k < |steps| {
      TerminatedStays(states[k], steps[k], i);
    }
  }

  lemma TerminatedStays(s: State, step: Step, i: nat)
    requires Safe(s) && Enabled(s, step) && i < |s.tasks| && s.tasks[i].status == Terminated
    ensures i < |Next(s, step).tasks| && Next(s, step).tasks[i].status == Terminated
    ensures Dispatched(s, step) != Some(i)
  {
  }

  // ---------------------------------------------------------------- bounded waiting

  /** How many tasks of a list of `n` lie strictly between `p` and `t`, going round. */
  function Distance(p: nat, t: nat, n: nat): int {
    if t > p then t - p - 1 else t + n - p - 1
  }

  function Calls(steps: seq<Step>, c: nat): nat {
    if steps == [] then 0 else (if steps[0] == SwitchTask(c) then 1 else 0) + Calls(steps[1..], c)
  }

  /** A switch either dispatches the waiting task or brings the CPU strictly closer to it. */
  lemma SwitchGetsCloser(s: State, c: nat, t: nat, n: nat)
    requires Safe(s) && c < |s.cpus| && t < |s.tasks| <= n && s.tasks[t].status == Ready
    ensures Switch(s, c).1.Switched?
    ensures var next := Switch(s, c).1.task;
            next == t ||
            (Switch(s, c).0.tasks[t].status == Ready &&
             Distance(next, t, n) < Distance(StartIndex(s.cpus[c]), t, n))
  {
  }

  lemma OthersKeepWaiting(s: State, step: Step, c: nat, t: nat)
    requires Safe(s) && Enabled(s, step) && c < |s.cpus| && step != SwitchTask(c)
    requires t < |s.tasks| && s.tasks[t].status == Ready && Dispatched(s, step) != Some(t)
    ensures var r := Next(s, step);
            && |r.cpus| == |s.cpus| && r.cpus[c].current == s.cpus[c].current
            && t < |r.tasks| && r.tasks[t].status == Ready
  {
  }

  lemma {:induction false} TasksOnlyGrow(states: seq<State>, steps: seq<Step>, k: nat)
    requires IsRun(states, steps) && k < |states|
    ensures |states[0].tasks| <= |states[k].tasks| && |states[0].cpus| == |states[k].cpus|
    decreases k
  {
    if k > 0 {
      TasksOnlyGrow(states, steps, k - 1);
    }
  }

  lemma TailIsRun(states: seq<State>, steps: seq<Step>)
    requires IsRun(states, steps) && steps != []
    ensures IsRun(states[1..], steps[1..])
  {
    StepKeepsSafe(states[0], steps[0]);
    forall k | 0 <= k < |steps| - 1
      ensures IndicesOk(states[1..][k]) && Enabled(states[1..][k], steps[1..][k]) &&
              states[1..][k + 1] == Next(states[1..][k], steps[1..][k])
    {
      assert states[1..][k] == states[k + 1] && steps[1..][k] == steps[k + 1];
      assert states[1..][k + 1] == states[k + 2];
    }
  }

  lemma {:induction false} WaitingEnds(states: seq<State>, steps: seq<Step>, c: nat, t: nat, n: nat) returns (k: nat)
    requires IsRun(states, steps) && c < |states[0].cpus|
    requires t < |states[0].tasks| && states[0].tasks[t].status == Ready
    requires |states[|steps|].tasks| <= n
    requires Calls(steps, c) > Distance(StartIndex(states[0].cpus[c]), t, n)
    ensures k < |steps| && Dispatched(states[k], steps[k]) == Some(t)
    decreases |steps|
  {
    TasksOnlyGrow(states, steps, |steps|);
    var s := states[0];
    assert Distance(StartIndex(s.cpus[c]), t, n) >= 0;
    if Dispatched(s, steps[0]) == Some(t) {
      return 0;
    }
    TailIsRun(states, steps);
    if steps[0] == SwitchTask(c) {
      SwitchGetsCloser(s, c, t, n);
    } else {
      OthersKeepWaiting(s, steps[0], c, t);
    }
    assert states[1] == Next(s, steps[0]);
    k := WaitingEnds(states[1..], steps[1..], c, t, n);
    k := k + 1;
  }

  /**
   Bounded waiting.  In every run, however the CPUs interleave and however many
   tasks are added meanwhile, a Ready task is dispatched by some CPU before any one
   CPU has made as many switch_task calls as there are tasks at the end.
   */
  lemma BoundedWaiting(states: seq<State>, steps: seq<Step>, c: nat, t: nat)
    requires IsRun(states, steps) && c < |states[0].cpus|
    requires t < |states[0].tasks| && states[0].tasks[t].status == Ready
    requires Calls(steps, c) >= |states[|steps|].tasks|
    ensures exists k | 0 <= k < |steps| :: IndicesOk(states[k]) && Dispatched(states[k], steps[k]) == Some(t)
  {
    TasksOnlyGrow(states, steps, |steps|);
    var k := WaitingEnds(states, steps, c, t, |states[|steps|].tasks|);
  }

  // ---------------------------------------------------------------- shared slots, private values

  /** The user stack pointer and GS base a task believes it has. */
  datatype Context = Context(rsp: nat, gs: nat)

  /** How the private values evolve: only a task's own code, and its creation, set them. */
  ghost function NextContexts(own: seq<Context>, s: State, step: Step): seq<Context>
    requires IndicesOk(s) && Enabled(s, step) && |own| == |s.tasks|
  {
    match step
    case NewTask(task) => own + [Context(task.userRsp, task.gsBase)]
    case UserCode(c, rsp, gs) =>
      if s.cpus[c].current.Some? then own[s.cpus[c].current.value := Context(rsp, gs)] else own
    case _ => own
  }

  /** A running task's values are live on its CPU; any other task's are in its task record. */
  ghost predicate Multiplexed(s: State, own: seq<Context>) {
    && |own| == |s.tasks|
    && (forall c | 0 <= c < |s.cpus| && s.cpus[c].current.Some? && s.cpus[c].current.value < |own| ::
          own[s.cpus[c].current.value] == Context(s.cpus[c].userStack, s.cpus[c].gsBase))
    && (forall i | 0 <= i < |s.tasks| && !OnCpu(s, i) :: own[i] == Context(s.tasks[i].userRsp, s.tasks[i].gsBase))
  }

  lemma DispatchKeepsContexts(s: State, c: nat, next: nat, own: seq<Context>)
    requires Safe(s) && c < |s.cpus| && next < |s.tasks| && s.tasks[next].status == Ready
    requires Multiplexed(s, own)
    ensures Multiplexed(Dispatch(s, c, next), own)
  {
    var t := Dispatch(s, c, next);
    assert !OnCpu(s, next);
    forall i | 0 <= i < |t.tasks| && !OnCpu(t, i)
      ensures own[i] == Context(t.tasks[i].userRsp, t.tasks[i].gsBase)
    {
      assert t.cpus[c].current == Some(next);
      if s.cpus[c].current != Some(i) {
        forall d | 0 <= d < |s.cpus|
          ensures s.cpus[d].current != Some(i)
        {
          assert t.cpus[d].current != Some(i);
        }
      }
    }
  }

  lemma StepKeepsContexts(s: State, step: Step, own: seq<Context>)
    requires Safe(s) && Enabled(s, step) && Multiplexed(s, own)
    ensures Multiplexed(Next(s, step), NextContexts(own, s, step))
  {
    var t := Next(s, step);
    if step.SwitchTask? {
      if Switch(s, step.cpu).1.Switched? {
        DispatchKeepsContexts(s, step.cpu, Switch(s, step.cpu).1.task, own);
      }
    } else {
      assert forall d | 0 <= d < |s.cpus| :: t.cpus[d].current == s.cpus[d].current;
      forall i | 0 <= i < |s.tasks| && !OnCpu(t, i)
        ensures !OnCpu(s, i)
      {
        assert forall d | 0 <= d < |s.cpus| :: t.cpus[d].current != Some(i);
      }
    }
  }

  ghost predicate IsContextRun(states: seq<State>, steps: seq<Step>, owns: seq<seq<Context>>) {
    && IsRun(states, steps) && |owns| == |states|
    && Multiplexed(states[0], owns[0])
    && forall k | 0 <= k < |steps| ::
         |owns[k]| == |states[k].tasks| && owns[k + 1] == NextContexts(owns[k], states[k], steps[k])
  }

  lemma DispatchFindsOwn(s: State, step: Step, own: seq<Context>)
    requires Safe(s) && Enabled(s, step) && Multiplexed(s, own) && Dispatched(s, step).Some?
    ensures var t, cpu := Dispatched(s, step).value, Next(s, step).cpus[step.cpu];
            t < |own| && own[t] == Context(cpu.userStack, cpu.gsBase)
  {
    assert !OnCpu(s, Dispatched(s, step).value);
  }

  /**
   Over every run the per-CPU slots behave as private per-task variables: when a
   task is dispatched, on whichever CPU, it finds the values it last had.
   */
  lemma {:induction false} ContextsArePrivate(states: seq<State>, steps: seq<Step>, owns: seq<seq<Context>>, k: nat)
    requires IsContextRun(states, steps, owns) && k < |states|
    ensures Multiplexed(states[k], owns[k])
    ensures k < |steps| && Dispatched(states[k], steps[k]).Some? ==>
              var t, cpu := Dispatched(states[k], steps[k]).value, states[k + 1].cpus[steps[k].cpu];
              t < |owns[k]| && owns[k][t] == Context(cpu.userStack, cpu.gsBase)
    decreases k
  {
    hide Multiplexed, Next, NextContexts, Dispatched, Safe;
    RunsAreSafe(states, steps, k);
    if k > 0 {
      ContextsArePrivate(states, steps, owns, k - 1);
      RunsAreSafe(states, steps, k - 1);
      StepKeepsContexts(states[k - 1], steps[k - 1], owns[k - 1]);
    }
    if k < |steps| && Dispatched(states[k], steps[k]).Some? {
      DispatchFindsOwn(states[k], steps[k], owns[k]);
    }
  }

  // ---------------------------------------------------------------- kernel stacks

  /** The stack that system calls on a CPU run on is that of its current task, if that has one. */
  ghost predicate KernelStacksOk(s: State) {
    forall c | 0 <= c < |s.cpus| && s.cpus[c].current.Some? && s.cpus[c].current.value < |s.tasks| ::
      var top := s.tasks[s.cpus[c].current.value].kernelStackTop;
      top != 0 ==> s.cpus[c].kernelStack == top
  }

  lemma InitialKernelStacks(s: State)
    requires Initial(s)
    ensures KernelStacksOk(s)
  {
  }

  /** What a step does to the kernel stack of a CPU: a dispatch brings the new task's, everything else leaves it. */
  lemma KernelStackAfter(s: State, step: Step, c: nat)
    requires Safe(s) && Enabled(s, step) && c < |s.cpus|
    ensures |Next(s, step).cpus| == |s.cpus|
    ensures var here := !step.NewTask? && step.cpu == c && Dispatched(s, step).Some?;
            Next(s, step).cpus[c].kernelStack ==
            if here && s.tasks[Dispatched(s, step).value].kernelStackTop != 0
            then s.tasks[Dispatched(s, step).value].kernelStackTop
            else s.cpus[c].kernelStack
  {
    hide FirstReady;
  }

  /** What no step changes in a task's record. */
  lemma RecordStays(s: State, step: Step, i: nat)
    requires Safe(s) && Enabled(s, step) && i < |s.tasks|
    ensures i < |Next(s, step).tasks|
    ensures var t, u := s.tasks[i], Next(s, step).tasks[i];
            && u.id == t.id && u.stackBottom == t.stackBottom
            && u.kernelStackBottom == t.kernelStackBottom && u.kernelStackTop == t.kernelStackTop
  {
    hide FirstReady;
  }

  lemma CurrentAfter(s: State, step: Step, c: nat)
    requires Safe(s) && Enabled(s, step) && c < |s.cpus|
    ensures |Next(s, step).cpus| == |s.cpus|
    ensures Next(s, step).cpus[c].current ==
            if !step.NewTask? && step.cpu == c && Dispatched(s, step).Some? then Dispatched(s, step)
            else s.cpus[c].current
  {
    hide FirstReady;
  }

  lemma StepKeepsKernelStacks(s: State, step: Step)
    requires Safe(s) && Enabled(s, step) && KernelStacksOk(s)
    ensures KernelStacksOk(Next(s, step))
  {
    var t := Next(s, step);
    forall i: nat | i < |s.tasks|
      ensures i < |t.tasks| && t.tasks[i].kernelStackTop == s.tasks[i].kernelStackTop
    {
      RecordStays(s, step, i);
    }
    hide Next, Dispatched;
    forall c | 0 <= c < |t.cpus| && t.cpus[c].current.Some? && t.cpus[c].current.value < |t.tasks|
      ensures var top := t.tasks[t.cpus[c].current.value].kernelStackTop; top != 0 ==> t.cpus[c].kernelStack == top
    {
      CpusStay(s, step);
      CurrentAfter(s, step, c);
      KernelStackAfter(s, step, c);
      DispatchedIsTask(s, step);
    }
  }

  lemma CpusStay(s: State, step: Step)
    requires Safe(s) && Enabled(s, step)
    ensures |Next(s, step).cpus| == |s.cpus|
  {
  }

  lemma DispatchedIsTask(s: State, step: Step)
    requires Safe(s) && Enabled(s, step)
    ensures Dispatched(s, step).Some? ==> Dispatched(s, step).value < |s.tasks|
    ensures forall c | 0 <= c < |s.cpus| && s.cpus[c].current.Some? :: s.cpus[c].current.value < |s.tasks|
  {
  }

  /**
   Over every run, a CPU whose task has a kernel stack uses exactly that one; so if no two
   tasks have the same, no two CPUs ever use the same.
   */
  lemma {:induction false} KernelStacksAreRight(states: seq<State>, steps: seq<Step>, k: nat)
    requires IsRun(states, steps) && KernelStacksOk(states[0]) && k < |states|
    ensures KernelStacksOk(states[k])
    ensures DistinctTops(states[k]) ==> NoSharedStack(states[k])
    decreases k
  {
    hide Safe, Next, KernelStacksOk, DistinctTops, NoSharedStack;
    RunsAreSafe(states, steps, k);
    if k > 0 {
      KernelStacksAreRight(states, steps, k - 1);
      RunsAreSafe(states, steps, k - 1);
      StepKeepsKernelStacks(states[k - 1], steps[k - 1]);
    }
    if DistinctTops(states[k]) {
      RightIsUnshared(states[k]);
    }
  }

  ghost predicate DistinctTops(s: State) {
    forall i, j | 0 <= i < j < |s.tasks| && s.tasks[i].kernelStackTop != 0 ::
      s.tasks[i].kernelStackTop != s.tasks[j].kernelStackTop
  }

  ghost predicate HasKernelTask(s: State, c: nat) {
    && c < |s.cpus| && s.cpus[c].current.Some? && s.cpus[c].current.value < |s.tasks|
    && s.tasks[s.cpus[c].current.value].kernelStackTop != 0
  }

  ghost predicate NoSharedStack(s: State) {
    forall c: nat, d: nat | HasKernelTask(s, c) && HasKernelTask(s, d) && c != d ::
      s.cpus[c].kernelStack != s.cpus[d].kernelStack
  }

  lemma RightIsUnshared(s: State)
    requires Safe(s) && KernelStacksOk(s) && DistinctTops(s)
    ensures NoSharedStack(s)
  {
    forall c: nat, d: nat | HasKernelTask(s, c) && HasKernelTask(s, d) && c != d
      ensures s.cpus[c].kernelStack != s.cpus[d].kernelStack
    {
      var i, j := s.cpus[c].current.value, s.cpus[d].current.value;
      assert i != j;
      assert i < j || j < i;
    }
  }

  // ---------------------------------------------------------------- exit codes

  /** Ending a task records its code, and touches no other task and nothing else of this one. */
  lemma TerminateRecords(s: State, c: nat, code: nat)
    requires Safe(s) && c < |s.cpus| && s.cpus[c].current.Some?
    ensures var i, t := s.cpus[c].current.value, Next(s, TerminateTask(c, code));
            && t.cpus == s.cpus && t.nextId == s.nextId && |t.tasks| == |s.tasks|
            && t.tasks[i] == s.tasks[i].(status := Terminated, exitCode := code)
            && forall j | 0 <= j < |s.tasks| && j != i :: t.tasks[j] == s.tasks[j]
  {
  }

  lemma ExitCodeAfter(s: State, step: Step, i: nat)
    requires Safe(s) && Enabled(s, step) && i < |s.tasks|
    ensures i < |Next(s, step).tasks|
    ensures Next(s, step).tasks[i].exitCode ==
            if step.TerminateTask? && s.cpus[step.cpu].current == Some(i) then step.code else s.tasks[i].exitCode
  {
    hide FirstReady;
  }

  /** A task's exit code is that of the last call that ended it. */
  lemma {:induction false} ExitCodeIsLast(states: seq<State>, steps: seq<Step>, j: nat, k: nat, i: nat)
    requires IsRun(states, steps) && j < k < |states| && i < |states[j].tasks|
    requires steps[j].TerminateTask? && states[j].cpus[steps[j].cpu].current == Some(i)
    requires forall h | j < h < k && steps[h].TerminateTask? :: states[h].cpus[steps[h].cpu].current != Some(i)
    ensures i < |states[k].tasks| && states[k].tasks[i].exitCode == steps[j].code
    decreases k - j
  {
    hide Safe, Next;
    RunsAreSafe(states, steps, k - 1);
    if j + 1 < k {
      ExitCodeIsLast(states, steps, j, k - 1, i);
    }
    ExitCodeAfter(states[k - 1], steps[k - 1], i);
  }
}
