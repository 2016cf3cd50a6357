/**
 The stack hand-over.  `switch_task` reads the incoming task's saved stack pointer
 under the lock, but the outgoing task's is only stored after the lock is dropped,
 through a pointer into the array of tasks.  Another CPU can pick that task up in
 between, or add a task and so move the array.
 */
module SchedulerStacks {
  import opened Bytes
  import opened Scheduler

  /**
   A stack pointer not stored yet: whose it is, which of its owner's switch-outs it
   belongs to, and the array its record was in when the address was taken.
   */
  datatype Pending = Pending(task: nat, number: nat, buffer: nat)

  /**
   `switchOuts[t]` counts how often task t has been switched out; `stored[t]` is the
   number of the switch-out whose stack pointer is in t's task record.  `buffer` is the
   task array in use, which has room for `capacity` tasks; `missed` are the tasks whose
   latest stack pointer was stored into an array that was no longer in use.
   */
  datatype Machine = Machine(
    s: State, pending: seq<Option<Pending>>, stored: seq<nat>, switchOuts: seq<nat>,
    buffer: nat, capacity: nat, missed: set<nat>)

  ghost predicate WellFormed(m: Machine) {
    && Safe(m.s) && |m.s.tasks| <= m.capacity
    && |m.pending| == |m.s.cpus| && |m.stored| == |m.switchOuts| == |m.s.tasks|
    && forall c | 0 <= c < |m.pending| :: m.pending[c].Some? ==> m.pending[c].value.task < |m.s.tasks|
  }

  /** `Push` is the step that adds a task; `room` is what a growing array gets beyond the new task. */
  datatype Action = Locked(step: Step) | Push(cpu: nat, task: Task, room: nat) | StoreStack(cpu: nat)

  /** A CPU between dropping the lock and storing does nothing else. */
  ghost predicate CanDo(m: Machine, a: Action) {
    && WellFormed(m)
    && match a
       case Locked(step) => !step.NewTask? && Enabled(m.s, step) && m.pending[step.cpu] == None
       case Push(c, _, _) => c < |m.pending| && m.pending[c] == None
       case StoreStack(c) => c < |m.pending| && m.pending[c].Some?
  }

  /** Adding a task moves the array when it is full. */
  ghost predicate Grows(m: Machine, a: Action) {
    a.Push? && |m.s.tasks| == m.capacity
  }

  ghost function Do(m: Machine, a: Action): Machine
    requires CanDo(m, a)
  {
    match a
    case StoreStack(c) =>
      var p := m.pending[c].value;
      var m1 := m.(pending := m.pending[c := None]);
      if p.buffer == m.buffer then m1.(stored := m.stored[p.task := p.number])
      else m1.(missed := m.missed + {p.task})
    case Push(_, task, room) =>
      var m1 := m.(s := Next(m.s, NewTask(task)), stored := m.stored + [0], switchOuts := m.switchOuts + [0]);
      if Grows(m, a) then m1.(buffer := m.buffer + 1, capacity := m.capacity + 1 + room) else m1
    case Locked(step) =>
      var s' := Next(m.s, step);
      if Dispatched(m.s, step).Some? && m.s.cpus[step.cpu].current.Some? then
        var t := m.s.cpus[step.cpu].current.value;
        var n := m.switchOuts[t] + 1;
        m.(s := s', pending := m.pending[step.cpu := Some(Pending(t, n, m.buffer))], switchOuts := m.switchOuts[t := n])
      else m.(s := s')
  }

  ghost predicate Dispatches(m: Machine, a: Action)
    requires CanDo(m, a)
  {
    a.Locked? && Dispatched(m.s, a.step).Some?
  }

  /** If this action dispatches a task, the stack pointer loaded is the one of its latest switch-out. */
  ghost predicate LoadsLatest(m: Machine, a: Action)
    requires CanDo(m, a)
  {
    Dispatches(m, a) ==>
      var t := Dispatched(m.s, a.step).value;
      m.stored[t] == m.switchOuts[t]
  }

  ghost predicate BeingStored(m: Machine, t: nat) {
    exists c | 0 <= c < |m.pending| :: m.pending[c].Some? && m.pending[c].value.task == t
  }

  ghost predicate PendingOk(m: Machine) {
    && (forall c | 0 <= c < |m.pending| && m.pending[c].Some? ::
          var p := m.pending[c].value;
          p.task < |m.stored| && p.task < |m.switchOuts| && !OnCpu(m.s, p.task) &&
          p.number == m.switchOuts[p.task] && m.stored[p.task] < p.number && p.buffer <= m.buffer)
    && (forall c, d | 0 <= c < |m.pending| && 0 <= d < |m.pending| && m.pending[c].Some? && m.pending[d].Some? ::
          m.pending[c].value.task == m.pending[d].value.task ==> c == d)
  }

  ghost predicate MissedOk(m: Machine) {
    forall t | t in m.missed ::
      t < |m.s.tasks| && t < |m.stored| && t < |m.switchOuts| && !OnCpu(m.s, t) && !BeingStored(m, t) &&
      m.stored[t] < m.switchOuts[t]
  }

  /**
   Every task that is neither running, nor being stored, nor was stored in the wrong
   place has its latest stack pointer in its record.
   */
  ghost predicate StacksOk(m: Machine) {
    && WellFormed(m) && PendingOk(m) && MissedOk(m)
    && (forall t | 0 <= t < |m.s.tasks| :: m.stored[t] <= m.switchOuts[t])
    && forall t | 0 <= t < |m.s.tasks| && !OnCpu(m.s, t) && !BeingStored(m, t) && t !in m.missed ::
         m.stored[t] == m.switchOuts[t]
  }

  /** A dispatch loads the right stack pointer exactly when that task's has been stored, and in the right place. */
  lemma LoadsLatestIffStored(m: Machine, a: Action)
    requires StacksOk(m) && CanDo(m, a) && Dispatches(m, a)
    ensures var t := Dispatched(m.s, a.step).value; LoadsLatest(m, a) <==> !BeingStored(m, t) && t !in m.missed
  {
    var t := Dispatched(m.s, a.step).value;
    assert !OnCpu(m.s, t);
  }

  lemma OnCpuAfterDispatch(s: State, c: nat, next: nat, i: nat)
    requires Safe(s) && c < |s.cpus| && next < |s.tasks| && s.tasks[next].status == Ready
    ensures OnCpu(Dispatch(s, c, next), i) <==> i == next || (OnCpu(s, i) && s.cpus[c].current != Some(i))
  {
    var t := Dispatch(s, c, next);
    assert t.cpus[c].current == Some(next);
    if OnCpu(s, i) {
      var d :| 0 <= d < |s.cpus| && s.cpus[d].current == Some(i);
      assert t.cpus[d].current == if d == c then Some(next) else Some(i);
    }
    if OnCpu(t, i) {
      var d :| 0 <= d < |t.cpus| && t.cpus[d].current == Some(i);
      assert d != c ==> s.cpus[d].current == Some(i);
    }
  }

  lemma OnCpuUnchanged(s: State, step: Step, i: nat)
    requires Safe(s) && Enabled(s, step) && Dispatched(s, step).None?
    ensures OnCpu(Next(s, step), i) <==> OnCpu(s, i)
  {
    var t := Next(s, step);
    assert forall d | 0 <= d < |s.cpus| :: t.cpus[d].current == s.cpus[d].current;
    if OnCpu(s, i) {
      var d :| 0 <= d < |s.cpus| && s.cpus[d].current == Some(i);
      assert t.cpus[d].current == Some(i);
    }
  }

  lemma BeingStoredAfterStore(m: Machine, c: nat, t: nat)
    requires StacksOk(m) && CanDo(m, StoreStack(c))
    ensures BeingStored(Do(m, StoreStack(c)), t) <==> BeingStored(m, t) && t != m.pending[c].value.task
  {
    var m' := Do(m, StoreStack(c));
    if BeingStored(m, t) && t != m.pending[c].value.task {
      var d :| 0 <= d < |m.pending| && m.pending[d].Some? && m.pending[d].value.task == t;
      assert m'.pending[d] == m.pending[d];
    }
    if BeingStored(m', t) {
      var d :| 0 <= d < |m'.pending| && m'.pending[d].Some? && m'.pending[d].value.task == t;
      assert m'.pending[d] == m.pending[d] && d != c;
    }
  }

  lemma StoreKeepsPending(m: Machine, c: nat)
    requires StacksOk(m) && CanDo(m, StoreStack(c))
    ensures PendingOk(Do(m, StoreStack(c)))
  {
    hide Safe, MissedOk, BeingStored;
    var m' := Do(m, StoreStack(c));
    assert forall d | 0 <= d < |m.pending| :: m'.pending[d] == if d == c then None else m.pending[d];
  }

  lemma StoreKeepsStacks(m: Machine, c: nat)
    requires StacksOk(m) && CanDo(m, StoreStack(c))
    ensures StacksOk(Do(m, StoreStack(c)))
  {
    hide Safe;
    StoreKeepsPending(m, c);
    assert !OnCpu(m.s, m.pending[c].value.task) && m.stored[m.pending[c].value.task] < m.pending[c].value.number;
    forall t: nat
      ensures BeingStored(Do(m, StoreStack(c)), t) <==> BeingStored(m, t) && t != m.pending[c].value.task
    {
      BeingStoredAfterStore(m, c, t);
    }
    PendingIsStoring(m, c);
    hide BeingStored, PendingOk;
  }

  lemma QuietKeepsStacks(m: Machine, a: Action)
    requires StacksOk(m) && CanDo(m, a) && !a.StoreStack? && !Dispatches(m, a)
    ensures StacksOk(Do(m, a))
  {
    var m', step := Do(m, a), if a.Push? then NewTask(a.task) else a.step;
    StepKeepsSafe(m.s, step);
    forall i: nat
      ensures OnCpu(m'.s, i) <==> OnCpu(m.s, i)
      ensures BeingStored(m', i) <==> BeingStored(m, i)
    {
      OnCpuUnchanged(m.s, step, i);
    }
    assert |m'.s.tasks| == if a.Push? then |m.s.tasks| + 1 else |m.s.tasks|;
    hide BeingStored, Safe, OnCpu;
  }

  lemma DispatchKeepsStacks(m: Machine, step: Step)
    requires StacksOk(m) && CanDo(m, Locked(step)) && Dispatched(m.s, step).Some? && LoadsLatest(m, Locked(step))
    ensures StacksOk(Do(m, Locked(step)))
  {
    var m', c, next := Do(m, Locked(step)), step.cpu, Dispatched(m.s, step).value;
    StepKeepsSafe(m.s, step);
    LoadsLatestIffStored(m, Locked(step));
    forall i: nat
      ensures OnCpu(m'.s, i) <==> i == next || (OnCpu(m.s, i) && m.s.cpus[c].current != Some(i))
      ensures BeingStored(m', i) <==> BeingStored(m, i) || m.s.cpus[c].current == Some(i)
    {
      OnCpuAfterDispatch(m.s, c, next, i);
      BeingStoredAfterDispatch(m, step, i);
    }
    CurrentIsOnCpu(m.s, c);
    DispatchPending(m, step, m');
    hide BeingStored, Safe, OnCpu;
  }

  lemma CurrentIsOnCpu(s: State, c: nat)
    requires c < |s.cpus|
    ensures s.cpus[c].current.Some? ==> OnCpu(s, s.cpus[c].current.value)
  {
  }

  lemma BeingStoredAfterDispatch(m: Machine, step: Step, i: nat)
    requires StacksOk(m) && CanDo(m, Locked(step)) && Dispatched(m.s, step).Some?
    ensures BeingStored(Do(m, Locked(step)), i) <==> BeingStored(m, i) || m.s.cpus[step.cpu].current == Some(i)
  {
    var m', c := Do(m, Locked(step)), step.cpu;
    if BeingStored(m, i) {
      var d :| 0 <= d < |m.pending| && m.pending[d].Some? && m.pending[d].value.task == i;
      assert m'.pending[d] == m.pending[d];
    }
    if m.s.cpus[c].current == Some(i) {
      assert m'.pending[c].Some? && m'.pending[c].value.task == i;
    }
    if BeingStored(m', i) {
      var d :| 0 <= d < |m'.pending| && m'.pending[d].Some? && m'.pending[d].value.task == i;
      assert d != c ==> m'.pending[d] == m.pending[d];
    }
  }

  lemma DispatchPending(m: Machine, step: Step, m': Machine)
    requires StacksOk(m) && CanDo(m, Locked(step)) && Dispatched(m.s, step).Some? && m' == Do(m, Locked(step))
    requires !BeingStored(m, Dispatched(m.s, step).value)
    requires forall i: nat :: OnCpu(m'.s, i) <==>
               i == Dispatched(m.s, step).value || (OnCpu(m.s, i) && m.s.cpus[step.cpu].current != Some(i))
    ensures PendingOk(m')
  {
    var leaving := m.s.cpus[step.cpu].current;
    forall d | 0 <= d < |m.pending| && m.pending[d].Some?
      ensures leaving != Some(m.pending[d].value.task)
    {
      assert !OnCpu(m.s, m.pending[d].value.task);
    }
    hide Safe, MissedOk;
  }

  lemma ActionKeepsStacks(m: Machine, a: Action)
    requires StacksOk(m) && CanDo(m, a) && LoadsLatest(m, a)
    ensures StacksOk(Do(m, a))
  {
    match a {
      case StoreStack(c) => StoreKeepsStacks(m, c);
      case Push(_, _, _) => QuietKeepsStacks(m, a);
      case Locked(step) =>
        if Dispatched(m.s, step).Some? {
          DispatchKeepsStacks(m, step);
        } else {
          QuietKeepsStacks(m, a);
        }
    }
  }

  // ---------------------------------------------------------------- runs

  ghost predicate IsMachineRun(ms: seq<Machine>, acts: seq<Action>) {
    && |ms| == |acts| + 1
    && forall k | 0 <= k < |acts| :: CanDo(ms[k], acts[k]) && ms[k + 1] == Do(ms[k], acts[k])
  }

  /** No CPU picks up a task that is being stored, and the array does not move under a pending store. */
  ghost predicate Careful(m: Machine, a: Action)
    requires CanDo(m, a)
  {
    && (Dispatches(m, a) ==> !BeingStored(m, Dispatched(m.s, a.step).value))
    && (Grows(m, a) ==> forall c | 0 <= c < |m.pending| :: m.pending[c] == None)
  }

  ghost predicate StoresWillHit(m: Machine) {
    m.missed == {} && forall c | 0 <= c < |m.pending| && m.pending[c].Some? :: m.pending[c].value.buffer == m.buffer
  }

  lemma CarefulKeepsHitting(m: Machine, a: Action)
    requires StacksOk(m) && StoresWillHit(m) && CanDo(m, a) && Careful(m, a)
    ensures LoadsLatest(m, a) && StoresWillHit(Do(m, a))
  {
    if Dispatches(m, a) {
      LoadsLatestIffStored(m, a);
    }
  }

  /** In every careful run, on any number of CPUs, every dispatch loads the right stack pointer. */
  lemma {:induction false} StacksHandedOver(ms: seq<Machine>, acts: seq<Action>, k: nat)
    requires IsMachineRun(ms, acts) && StacksOk(ms[0]) && StoresWillHit(ms[0]) && k < |ms|
    requires forall j | 0 <= j < k :: Careful(ms[j], acts[j])
    ensures StacksOk(ms[k]) && StoresWillHit(ms[k])
    ensures forall j | 0 <= j < k :: LoadsLatest(ms[j], acts[j])
    decreases k
  {
    hide StacksOk, StoresWillHit, LoadsLatest, CanDo, Careful, Do;
    if k > 0 {
      StacksHandedOver(ms, acts, k - 1);
      CarefulKeepsHitting(ms[k - 1], acts[k - 1]);
      ActionKeepsStacks(ms[k - 1], acts[k - 1]);
    }
  }

  lemma PendingStep(m: Machine, a: Action, c: nat)
    requires CanDo(m, a) && c < |m.pending| && m.pending[c].Some? && a != StoreStack(c)
    ensures c < |Do(m, a).pending| && Do(m, a).pending[c] == m.pending[c]
    ensures Do(m, a).buffer == if Grows(m, a) then m.buffer + 1 else m.buffer
  {
    hide Safe;
  }

  /** From its switch-out on, a pending store is the same until it is carried out, and arrays are never reused. */
  lemma {:induction false} PendingWaits(ms: seq<Machine>, acts: seq<Action>, j: nat, i: nat, c: nat)
    requires IsMachineRun(ms, acts) && j <= i < |ms| && c < |ms[j].pending| && ms[j].pending[c].Some?
    requires forall h | j <= h < i :: acts[h] != StoreStack(c)
    ensures c < |ms[i].pending| && ms[i].pending[c] == ms[j].pending[c]
    ensures ms[i].buffer >= ms[j].buffer
    ensures ms[i].buffer == ms[j].buffer <==> forall h | j <= h < i :: !Grows(ms[h], acts[h])
    decreases i - j
  {
    hide CanDo, Do, Grows;
    if j < i {
      PendingWaits(ms, acts, j, i - 1, c);
      PendingStep(ms[i - 1], acts[i - 1], c);
    }
  }

  // ---------------------------------------------------------------- the exact condition over runs

  /** As long as every dispatch has loaded the right stack pointer, the records are in order. */
  lemma {:induction false} GoodLoadsKeepStacks(ms: seq<Machine>, acts: seq<Action>, k: nat)
    requires IsMachineRun(ms, acts) && StacksOk(ms[0]) && k <= |acts|
    requires forall j | 0 <= j < k :: LoadsLatest(ms[j], acts[j])
    ensures StacksOk(ms[k])
    decreases k
  {
    hide StacksOk, LoadsLatest, CanDo, Do;
    if k > 0 {
      GoodLoadsKeepStacks(ms, acts, k - 1);
      ActionKeepsStacks(ms[k - 1], acts[k - 1]);
    }
  }

  /** Which task this action takes off its CPU, to be stored later. */
  ghost function Leaving(m: Machine, a: Action): (t: Option<nat>)
    requires CanDo(m, a)
    ensures t.Some? ==> a.Locked? && (a.step.SwitchTask? || a.step.TerminateTask?)
  {
    if Dispatches(m, a) then m.s.cpus[a.step.cpu].current else None
  }

  lemma LeavingLeavesPending(m: Machine, a: Action)
    requires CanDo(m, a) && Leaving(m, a).Some?
    ensures var m', c := Do(m, a), a.step.cpu;
            && c < |m'.pending| && m'.pending[c].Some? && m'.pending[c].value.task == Leaving(m, a).value
            && m'.pending[c].value.buffer == m'.buffer
  {
    hide Safe;
  }

  /**
   For every run whatever: the store that follows a switch-out goes to the array in use
   if and only if no task added in between made it move.
   */
  lemma StoreHitsIffNoGrowth(ms: seq<Machine>, acts: seq<Action>, j: nat, i: nat)
    requires IsMachineRun(ms, acts) && j < i < |ms| && Leaving(ms[j], acts[j]).Some?
    requires forall h | j < h < i :: acts[h] != StoreStack(acts[j].step.cpu)
    ensures var c := acts[j].step.cpu;
            && c < |ms[i].pending| && ms[i].pending[c].Some?
            && ms[i].pending[c].value.task == Leaving(ms[j], acts[j]).value
            && (ms[i].pending[c].value.buffer == ms[i].buffer <==> forall h | j < h < i :: !Grows(ms[h], acts[h]))
  {
    hide CanDo, Do, Leaving, Grows;
    LeavingLeavesPending(ms[j], acts[j]);
    PendingWaits(ms, acts, j + 1, i, acts[j].step.cpu);
  }

  /**
   While every dispatch so far has been right, the record has the right stack pointer after
   the store if and only if the array has not moved since the switch-out.
   */
  lemma RecordRightIffNoGrowth(ms: seq<Machine>, acts: seq<Action>, j: nat, i: nat)
    requires IsMachineRun(ms, acts) && StacksOk(ms[0]) && j < i < |acts|
    requires forall h | 0 <= h < i :: LoadsLatest(ms[h], acts[h])
    requires Leaving(ms[j], acts[j]).Some? && acts[i] == StoreStack(acts[j].step.cpu)
    requires forall h | j < h < i :: acts[h] != acts[i]
    ensures var t := Leaving(ms[j], acts[j]).value;
            && t < |ms[i + 1].stored| && t < |ms[i + 1].switchOuts|
            && (ms[i + 1].stored[t] == ms[i + 1].switchOuts[t] <==> forall h | j < h < i :: !Grows(ms[h], acts[h]))
            && (t in ms[i + 1].missed <==> exists h | j < h < i :: Grows(ms[h], acts[h]))
  {
    hide CanDo, Do, StacksOk, BeingStored, Leaving, Grows, LoadsLatest;
    GoodLoadsKeepStacks(ms, acts, i);
    StoreHitsIffNoGrowth(ms, acts, j, i);
    StoreLands(ms[i], acts[i].cpu);
  }

  /** Between its switch-out at `h` and `j` the stack pointer is stored, in an array that has not moved meanwhile. */
  ghost predicate StoredInTime(ms: seq<Machine>, acts: seq<Action>, h: nat, j: nat)
    requires IsMachineRun(ms, acts) && h < j < |acts|
  {
    acts[h].Locked? &&
    exists i | h < i < j :: acts[i] == StoreStack(acts[h].step.cpu) && NoGrowth(ms, acts, h, i)
  }

  ghost predicate NoGrowth(ms: seq<Machine>, acts: seq<Action>, h: nat, i: nat)
    requires IsMachineRun(ms, acts) && h < i < |acts|
  {
    forall x | h < x < i :: !Grows(ms[x], acts[x])
  }

  /** Step `j` dispatches what step `h` took off a CPU. */
  ghost predicate Resumes(ms: seq<Machine>, acts: seq<Action>, h: nat, j: nat)
    requires IsMachineRun(ms, acts) && h < j < |acts|
  {
    Dispatches(ms[j], acts[j]) && Leaving(ms[h], acts[h]) == Dispatched(ms[j].s, acts[j].step)
  }

  /** Nothing is outstanding. */
  ghost predicate AtRest(m: Machine) {
    m.missed == {} && forall c | 0 <= c < |m.pending| :: m.pending[c] == None
  }

  lemma FirstStore(acts: seq<Action>, c: nat, h: nat, j: nat) returns (i: nat)
    requires h < j <= |acts| && exists x | h < x < j :: acts[x] == StoreStack(c)
    ensures h < i < j && acts[i] == StoreStack(c) && forall x | h < x < i :: acts[x] != StoreStack(c)
  {
    i := h + 1;
    while acts[i] != StoreStack(c)
      invariant h < i < j && forall x | h < x < i :: acts[x] != StoreStack(c)
      invariant exists x | i <= x < j :: acts[x] == StoreStack(c)
      decreases j - i
    {
      i := i + 1;
    }
  }

  lemma {:induction false} MissedForever(ms: seq<Machine>, acts: seq<Action>, i: nat, j: nat)
    requires IsMachineRun(ms, acts) && i <= j < |ms|
    ensures ms[i].missed <= ms[j].missed
    decreases j - i
  {
    hide CanDo;
    if i < j {
      MissedForever(ms, acts, i, j - 1);
    }
  }

  /** Where a pending store comes from: a switch-out whose store has not come yet. */
  lemma {:induction false} PendingHasOrigin(ms: seq<Machine>, acts: seq<Action>, j: nat, c: nat) returns (h: nat)
    requires IsMachineRun(ms, acts) && AtRest(ms[0]) && j < |ms| && c < |ms[j].pending| && ms[j].pending[c].Some?
    ensures h < j && Leaving(ms[h], acts[h]) == Some(ms[j].pending[c].value.task) && acts[h].step.cpu == c
    ensures forall x | h < x < j :: acts[x] != StoreStack(c)
    decreases j
  {
    hide CanDo, Do, Leaving;
    assert j > 0;
    PendingBefore(ms[j - 1], acts[j - 1], c);
    if Leaving(ms[j - 1], acts[j - 1]).Some? && acts[j - 1].step.cpu == c {
      h := j - 1;
      LeavingLeavesPending(ms[h], acts[h]);
    } else {
      h := PendingHasOrigin(ms, acts, j - 1, c);
    }
  }

  lemma PendingBefore(m: Machine, a: Action, c: nat)
    requires CanDo(m, a) && c < |Do(m, a).pending| && Do(m, a).pending[c].Some?
    ensures a != StoreStack(c) && c < |m.pending|
    ensures (Leaving(m, a).Some? && a.step.cpu == c) || Do(m, a).pending[c] == m.pending[c]
  {
    hide Safe;
  }

  /** Where a miss comes from: a store into an array that was no longer in use. */
  lemma {:induction false} MissHasOrigin(ms: seq<Machine>, acts: seq<Action>, j: nat, t: nat) returns (i: nat)
    requires IsMachineRun(ms, acts) && AtRest(ms[0]) && j < |ms| && t in ms[j].missed
    ensures i < j && acts[i].StoreStack? && acts[i].cpu < |ms[i].pending| && ms[i].pending[acts[i].cpu].Some?
    ensures var p := ms[i].pending[acts[i].cpu].value; p.task == t && p.buffer != ms[i].buffer
    decreases j
  {
    assert j > 0;
    if t in ms[j - 1].missed {
      i := MissHasOrigin(ms, acts, j - 1, t);
    } else {
      i := j - 1;
    }
  }

  /** A dispatch that is right: the store came in time. */
  lemma RightWasStored(ms: seq<Machine>, acts: seq<Action>, h: nat, j: nat)
    requires IsMachineRun(ms, acts) && StacksOk(ms[0]) && h < j < |acts| && Resumes(ms, acts, h, j)
    requires forall x | 0 <= x <= j :: LoadsLatest(ms[x], acts[x])
    ensures StoredInTime(ms, acts, h, j)
  {
    hide CanDo, Do, StacksOk, BeingStored, Grows, LoadsLatest;
    var c, t := acts[h].step.cpu, Leaving(ms[h], acts[h]).value;
    GoodLoadsKeepStacks(ms, acts, j);
    LoadsLatestIffStored(ms[j], acts[j]);
    hide Leaving, Dispatches;
    if forall x | h < x < j :: acts[x] != StoreStack(c) {
      StoreHitsIffNoGrowth(ms, acts, h, j);
      PendingIsStoring(ms[j], c);
    }
    var i := FirstStore(acts, c, h, j);
    RecordRightIffNoGrowth(ms, acts, h, i);
    MissedForever(ms, acts, i + 1, j);
    assert NoGrowth(ms, acts, h, i);
  }

  /** A task dispatched while it is being stored was not stored in time. */
  lemma PendingIsLate(ms: seq<Machine>, acts: seq<Action>, j: nat, c: nat) returns (h: nat)
    requires IsMachineRun(ms, acts) && AtRest(ms[0]) && j < |acts| && Dispatches(ms[j], acts[j])
    requires c < |ms[j].pending| && ms[j].pending[c].Some?
    requires Dispatched(ms[j].s, acts[j].step) == Some(ms[j].pending[c].value.task)
    ensures h < j && Resumes(ms, acts, h, j) && !StoredInTime(ms, acts, h, j)
  {
    hide Do, Leaving;
    h := PendingHasOrigin(ms, acts, j, c);
  }

  /** Nor was one whose store missed. */
  lemma MissIsLate(ms: seq<Machine>, acts: seq<Action>, j: nat) returns (h: nat)
    requires IsMachineRun(ms, acts) && AtRest(ms[0]) && j < |acts| && Dispatches(ms[j], acts[j])
    requires Dispatched(ms[j].s, acts[j].step).value in ms[j].missed
    ensures h < j && Resumes(ms, acts, h, j) && !StoredInTime(ms, acts, h, j)
  {
    hide Do, Leaving, Grows;
    var i := MissHasOrigin(ms, acts, j, Dispatched(ms[j].s, acts[j].step).value);
    h := PendingHasOrigin(ms, acts, i, acts[i].cpu);
    StoreHitsIffNoGrowth(ms, acts, h, i);
    var x :| h < x < i && Grows(ms[x], acts[x]);
  }

  /** A dispatch of what has always been stored in time is right. */
  lemma StoredIsRight(ms: seq<Machine>, acts: seq<Action>, j: nat)
    requires IsMachineRun(ms, acts) && AtRest(ms[0]) && j < |acts| && StacksOk(ms[j])
    requires forall h | 0 <= h < j && Resumes(ms, acts, h, j) :: StoredInTime(ms, acts, h, j)
    ensures LoadsLatest(ms[j], acts[j])
  {
    hide Do, StacksOk, Resumes, StoredInTime;
    if Dispatches(ms[j], acts[j]) {
      var t := Dispatched(ms[j].s, acts[j].step).value;
      LoadsLatestIffStored(ms[j], acts[j]);
      if BeingStored(ms[j], t) {
        var c: nat :| c < |ms[j].pending| && ms[j].pending[c].Some? && ms[j].pending[c].value.task == t;
        var h := PendingIsLate(ms, acts, j, c);
      } else if t in ms[j].missed {
        var h := MissIsLate(ms, acts, j);
      }
    }
  }

  /**
   The exact condition, in what the CPUs do.  In a run that starts with nothing outstanding
   every dispatch up to step `k` loads the latest stack pointer if and only if, whenever a
   task is resumed, its stack pointer has been stored since it was switched out, and no task
   added between switch-out and store made the array move.
   */
  lemma {:induction false} LoadsLatestIffStoredInTime(ms: seq<Machine>, acts: seq<Action>, k: nat)
    requires IsMachineRun(ms, acts) && StacksOk(ms[0]) && AtRest(ms[0]) && k <= |acts|
    ensures (forall j | 0 <= j < k :: LoadsLatest(ms[j], acts[j])) <==>
            forall h, j | 0 <= h < j < k && Resumes(ms, acts, h, j) :: StoredInTime(ms, acts, h, j)
    decreases k
  {
    hide CanDo, Do, StacksOk, AtRest, LoadsLatest, Resumes, StoredInTime;
    if k > 0 {
      LoadsLatestIffStoredInTime(ms, acts, k - 1);
      var j := k - 1;
      if forall i | 0 <= i < k :: LoadsLatest(ms[i], acts[i]) {
        forall h | 0 <= h < j && Resumes(ms, acts, h, j)
          ensures StoredInTime(ms, acts, h, j)
        {
          RightWasStored(ms, acts, h, j);
        }
      } else if forall i | 0 <= i < j :: LoadsLatest(ms[i], acts[i]) {
        GoodLoadsKeepStacks(ms, acts, j);
        if forall h | 0 <= h < j && Resumes(ms, acts, h, j) :: StoredInTime(ms, acts, h, j) {
          StoredIsRight(ms, acts, j);
        }
      }
    }
  }

  /**
   The same in terms of states: every dispatch is right if and only if each task dispatched
   is then neither being stored nor was stored in the wrong place.
   */
  lemma {:induction false} LoadsLatestIffNeverStale(ms: seq<Machine>, acts: seq<Action>, k: nat)
    requires IsMachineRun(ms, acts) && StacksOk(ms[0]) && k <= |acts|
    ensures (forall j | 0 <= j < k :: LoadsLatest(ms[j], acts[j])) <==>
            forall j | 0 <= j < k :: NotStale(ms[j], acts[j])
    decreases k
  {
    hide CanDo, Do, StacksOk, LoadsLatest, NotStale;
    if k > 0 {
      LoadsLatestIffNeverStale(ms, acts, k - 1);
      if forall j | 0 <= j < k - 1 :: LoadsLatest(ms[j], acts[j]) {
        GoodLoadsKeepStacks(ms, acts, k - 1);
        RightIffNotStale(ms[k - 1], acts[k - 1]);
      }
    }
  }

  ghost predicate NotStale(m: Machine, a: Action)
    requires CanDo(m, a)
  {
    Dispatches(m, a) ==> !BeingStored(m, Dispatched(m.s, a.step).value) && Dispatched(m.s, a.step).value !in m.missed
  }

  lemma RightIffNotStale(m: Machine, a: Action)
    requires StacksOk(m) && CanDo(m, a)
    ensures LoadsLatest(m, a) <==> NotStale(m, a)
  {
    hide StacksOk, BeingStored;
    if Dispatches(m, a) {
      LoadsLatestIffStored(m, a);
    }
  }

  lemma StoreLands(m: Machine, c: nat)
    requires StacksOk(m) && CanDo(m, StoreStack(c))
    ensures var p, m' := m.pending[c].value, Do(m, StoreStack(c));
            && p.task < |m'.stored| && p.task < |m'.switchOuts|
            && (m'.stored[p.task] == m'.switchOuts[p.task] <==> p.buffer == m.buffer)
            && (p.task in m'.missed <==> p.buffer != m.buffer) && !BeingStored(m', p.task)
  {
    BeingStoredAfterStore(m, c, m.pending[c].value.task);
    PendingIsStoring(m, c);
    hide Safe, BeingStored;
  }

  lemma PendingIsStoring(m: Machine, c: nat)
    requires c < |m.pending| && m.pending[c].Some?
    ensures BeingStored(m, m.pending[c].value.task)
  {
  }

  /** The machine at the start, for any number of CPUs. */
  ghost function Start(s: State, capacity: nat): Machine {
    Machine(s, seq(|s.cpus|, _ => None), seq(|s.tasks|, _ => 0), seq(|s.tasks|, _ => 0), 0, capacity, {})
  }

  lemma StartIsInOrder(s: State, capacity: nat)
    requires Initial(s) && |s.tasks| <= capacity
    ensures StacksOk(Start(s, capacity)) && AtRest(Start(s, capacity)) && StoresWillHit(Start(s, capacity))
  {
    InitialIsSafe(s);
    hide Safe, Initial;
  }

  // ---------------------------------------------------------------- one CPU

  lemma OneCpuIsCareful(m: Machine, a: Action)
    requires StacksOk(m) && CanDo(m, a) && |m.s.cpus| == 1
    ensures Careful(m, a)
  {
  }

  /** With one CPU nothing can come between unlock and store: every dispatch in every run is right. */
  lemma {:induction false} OneCpuStacks(ms: seq<Machine>, acts: seq<Action>, k: nat)
    requires IsMachineRun(ms, acts) && StacksOk(ms[0]) && StoresWillHit(ms[0]) && |ms[0].s.cpus| == 1 && k < |ms|
    ensures StacksOk(ms[k]) && StoresWillHit(ms[k]) && |ms[k].s.cpus| == 1
    ensures k < |acts| ==> LoadsLatest(ms[k], acts[k])
    decreases k
  {
    hide StacksOk, LoadsLatest, CanDo, StoresWillHit, Careful;
    if k > 0 {
      OneCpuStacks(ms, acts, k - 1);
      OneCpuIsCareful(ms[k - 1], acts[k - 1]);
      CarefulKeepsHitting(ms[k - 1], acts[k - 1]);
      ActionKeepsStacks(ms[k - 1], acts[k - 1]);
      CpusAreFixed(ms[k - 1], acts[k - 1]);
    }
    if k < |acts| {
      OneCpuIsCareful(ms[k], acts[k]);
      CarefulKeepsHitting(ms[k], acts[k]);
    }
  }

  lemma CpusAreFixed(m: Machine, a: Action)
    requires CanDo(m, a)
    ensures |Do(m, a).s.cpus| == |m.s.cpus|
  {
  }

  // ---------------------------------------------------------------- two CPUs

  /** The boot CPU and a second, idle one, with the main task running and an array for two tasks. */
  ghost function Boot(idle: Cpu): Machine {
    Machine(State([MainTask()], [idle.(current := Some(0)), idle.(current := None)], 1),
      [None, None], [0], [0], 0, 2, {})
  }

  lemma BootStacksOk(idle: Cpu)
    ensures StacksOk(Boot(idle)) && StoresWillHit(Boot(idle)) && Initial(Boot(idle).s) && |Boot(idle).s.cpus| == 2
  {
    var s := Boot(idle).s;
    InitialIsSafe(s);
    assert s.cpus[0].current == Some(0);
    assert OnCpu(s, 0);
  }

  lemma BootAddsTask(idle: Cpu, task: Task) returns (m1: Machine)
    ensures CanDo(Boot(idle), Push(0, task, 0)) && m1 == Do(Boot(idle), Push(0, task, 0))
    ensures StacksOk(m1) && m1.pending == [None, None] && |m1.s.cpus| == 2
    ensures m1.s.cpus[0].current == Some(0) && m1.s.cpus[1].current == None
    ensures |m1.s.tasks| == 2 && m1.s.tasks[0].status == Running && m1.s.tasks[1].status == Ready
    ensures m1.stored == [0, 0] && m1.switchOuts == [0, 0] && m1.buffer == 0 && m1.capacity == 2 && m1.missed == {}
  {
    BootStacksOk(idle);
    hide Safe, PendingOk, MissedOk, BeingStored;
    ActionKeepsStacks(Boot(idle), Push(0, task, 0));
    m1 := Do(Boot(idle), Push(0, task, 0));
  }

  /** The boot CPU leaves the main task for the new one and has yet to store its stack pointer. */
  lemma BootCpuLeavesMain(idle: Cpu, task: Task) returns (m1: Machine, m2: Machine)
    ensures CanDo(Boot(idle), Push(0, task, 0)) && m1 == Do(Boot(idle), Push(0, task, 0))
    ensures CanDo(m1, Locked(SwitchTask(0))) && m2 == Do(m1, Locked(SwitchTask(0)))
    ensures StacksOk(m2) && m2.pending == [Some(Pending(0, 1, 0)), None]
    ensures |m2.s.cpus| == 2 && m2.s.cpus[1].current == None
    ensures |m2.s.tasks| == 2 && m2.s.tasks[0].status == Ready && m2.s.tasks[1].status == Running
    ensures m2.stored == [0, 0] && m2.switchOuts == [1, 0] && m2.buffer == 0 && m2.capacity == 2 && m2.missed == {}
  {
    hide Boot, PendingOk, MissedOk, BeingStored;
    m1 := BootAddsTask(idle, task);
    assert NextReady(m1.s.tasks, 0) == Some(1);
    CarefulStart(m1);
    ActionKeepsStacks(m1, Locked(SwitchTask(0)));
    m2 := Do(m1, Locked(SwitchTask(0)));
  }

  lemma CarefulStart(m: Machine)
    requires StacksOk(m) && CanDo(m, Locked(SwitchTask(0))) && m.missed == {}
    requires forall c | 0 <= c < |m.pending| :: m.pending[c] == None
    ensures LoadsLatest(m, Locked(SwitchTask(0)))
  {
    if Dispatches(m, Locked(SwitchTask(0))) {
      LoadsLatestIffStored(m, Locked(SwitchTask(0)));
    }
  }

  /** With two CPUs the hand-over does go wrong: the second CPU loads a stack pointer that is out of date. */
  lemma TwoCpusLoadStaleStack(idle: Cpu, task: Task) returns (ms: seq<Machine>, acts: seq<Action>)
    ensures IsMachineRun(ms, acts) && StacksOk(ms[0]) && Initial(ms[0].s) && |ms[0].s.cpus| == 2
    ensures |acts| == 3 && !LoadsLatest(ms[2], acts[2])
  {
    BootStacksOk(idle);
    acts := [Push(0, task, 0), Locked(SwitchTask(0)), Locked(SwitchTask(1))];
    var m1, m2 := BootCpuLeavesMain(idle, task);
    assert WellFormed(m2);
    hide StacksOk, WellFormed;
    assert CanDo(m2, acts[2]);
    ms := [Boot(idle), m1, m2, Do(m2, acts[2])];
  }

  /**
   The other way it goes wrong: the second CPU adds a task before the store, the array
   moves, and the main task is later resumed from a stack pointer that is out of date
   although nobody is storing any more.
   */
  lemma GrowthLosesStack(idle: Cpu, task: Task) returns (ms: seq<Machine>, acts: seq<Action>)
    ensures IsMachineRun(ms, acts) && StacksOk(ms[0]) && StoresWillHit(ms[0]) && Initial(ms[0].s) && |ms[0].s.cpus| == 2
    ensures |acts| == 6 && !LoadsLatest(ms[5], acts[5])
    ensures forall c | 0 <= c < |ms[5].pending| :: ms[5].pending[c] == None
  {
    hide StacksOk, StoresWillHit, CanDo, LoadsLatest, Do, Boot, Initial, IsMachineRun;
    BootStacksOk(idle);
    var m1, m2 := BootCpuLeavesMain(idle, task);
    var m3, m4 := StoreGoesAstray(m2, task);
    var m5 := SecondCpuGetsToMain(m4);
    acts := [Push(0, task, 0), Locked(SwitchTask(0)), Push(1, task, 0), StoreStack(0),
      Locked(SwitchTask(1)), Locked(SwitchTask(1))];
    ms := [Boot(idle), m1, m2, m3, m4, m5, Do(m5, Locked(SwitchTask(1)))];
    SixSteps(ms, acts);
  }

  lemma SixSteps(ms: seq<Machine>, acts: seq<Action>)
    requires |ms| == 7 && |acts| == 6
    requires CanDo(ms[0], acts[0]) && ms[1] == Do(ms[0], acts[0])
    requires CanDo(ms[1], acts[1]) && ms[2] == Do(ms[1], acts[1])
    requires CanDo(ms[2], acts[2]) && ms[3] == Do(ms[2], acts[2])
    requires CanDo(ms[3], acts[3]) && ms[4] == Do(ms[3], acts[3])
    requires CanDo(ms[4], acts[4]) && ms[5] == Do(ms[4], acts[4])
    requires CanDo(ms[5], acts[5]) && ms[6] == Do(ms[5], acts[5])
    ensures IsMachineRun(ms, acts)
  {
    hide CanDo, Do;
  }

  lemma StoreGoesAstray(m2: Machine, task: Task) returns (m3: Machine, m4: Machine)
    requires StacksOk(m2) && m2.pending == [Some(Pending(0, 1, 0)), None]
    requires |m2.s.cpus| == 2 && m2.s.cpus[1].current == None
    requires |m2.s.tasks| == 2 && m2.s.tasks[0].status == Ready && m2.s.tasks[1].status == Running
    requires m2.stored == [0, 0] && m2.switchOuts == [1, 0] && m2.buffer == 0 && m2.capacity == 2 && m2.missed == {}
    ensures CanDo(m2, Push(1, task, 0)) && m3 == Do(m2, Push(1, task, 0))
    ensures CanDo(m3, StoreStack(0)) && m4 == Do(m3, StoreStack(0))
    ensures StacksOk(m4) && m4.pending == [None, None] && |m4.s.cpus| == 2 && m4.s.cpus[1].current == None
    ensures |m4.s.tasks| == 3 && m4.s.tasks[0].status == Ready
    ensures m4.s.tasks[1].status == Running && m4.s.tasks[2].status == Ready
    ensures m4.stored == [0, 0, 0] && m4.switchOuts == [1, 0, 0] && m4.missed == {0}
  {
    ActionKeepsStacks(m2, Push(1, task, 0));
    m3 := Do(m2, Push(1, task, 0));
    ActionKeepsStacks(m3, StoreStack(0));
    m4 := Do(m3, StoreStack(0));
  }

  lemma SecondCpuGetsToMain(m4: Machine) returns (m5: Machine)
    requires StacksOk(m4) && m4.pending == [None, None] && |m4.s.cpus| == 2 && m4.s.cpus[1].current == None
    requires |m4.s.tasks| == 3 && m4.s.tasks[0].status == Ready
    requires m4.s.tasks[1].status == Running && m4.s.tasks[2].status == Ready
    requires m4.stored == [0, 0, 0] && m4.switchOuts == [1, 0, 0] && m4.missed == {0}
    ensures CanDo(m4, Locked(SwitchTask(1))) && m5 == Do(m4, Locked(SwitchTask(1)))
    ensures CanDo(m5, Locked(SwitchTask(1))) && !LoadsLatest(m5, Locked(SwitchTask(1))) && m5.pending == [None, None]
  {
    assert NextReady(m4.s.tasks, 0) == Some(2);
    LoadsLatestIffStored(m4, Locked(SwitchTask(1)));
    ActionKeepsStacks(m4, Locked(SwitchTask(1)));
    m5 := Do(m4, Locked(SwitchTask(1)));
    assert m5.s.cpus[1].current == Some(2) && NextReady(m5.s.tasks, 2) == Some(0);
  }
}
