/**
 An NVMe queue pair (NVMe Base Specification 1.4, section 4.6): driver and device
 take turns in any order on a submission ring and a completion ring whose entries
 carry a phase bit.  The driver has one command outstanding at a time.
 */
module Nvme {
  import opened Bytes

  /** `fields` is all of a command but its id; `serial` counts commands from the first, and neither side looks at it. */
  datatype Command = Command(id: u16, fields: seq<u32>, serial: nat)
  datatype Completion = Completion(phase: nat, id: u16, serial: nat)

  /**
   Driver: `tail`, `head`, `phase`, and the command id it waits for.  Device: `sqHead`,
   `cqTail`, `cqPhase` and the commands it is working on.  `doorbell` and `headDoorbell` are
   the submission tail and completion head last written to the device.  `issued` are the
   commands given to the driver, `fetched` those the device has read.
   */
  datatype Queue = Queue(
    size: nat, sq: seq<Command>, cq: seq<Completion>, submitted: nat,
    tail: nat, head: nat, phase: nat, waiting: Option<u16>,
    doorbell: nat, headDoorbell: nat, sqHead: nat, cqTail: nat, cqPhase: nat, working: seq<Command>,
    issued: seq<Command>, fetched: seq<Command>)

  predicate Wf(q: Queue) {
    && q.size >= 2 && |q.sq| == q.size && |q.cq| == q.size
    && q.tail < q.size && q.head < q.size && q.doorbell < q.size && q.sqHead < q.size && q.cqTail < q.size
  }

  function Advance(i: nat, size: nat): nat {
    if i + 1 >= size then 0 else i + 1
  }

  function Flip(phase: nat): nat {
    if phase == 1 then 0 else 1
  }

  // ---------------------------------------------------------------- steps

  function Submit(q: Queue, id: u16, fields: seq<u32>): Queue
    requires Wf(q)
  {
    var tail, c := Advance(q.tail, q.size), Command(id, fields, q.submitted);
    q.(sq := q.sq[q.tail := c], submitted := q.submitted + 1, tail := tail, doorbell := tail, waiting := Some(id),
       issued := q.issued + [c])
  }

  /** What one look at the completion ring comes to. */
  datatype Seen = Nothing | Own(serial: nat) | Other(serial: nat)

  function Look(q: Queue): Seen
    requires Wf(q)
  {
    var entry := q.cq[q.head];
    if entry.phase != q.phase then Nothing
    else if Some(entry.id) == q.waiting then Own(entry.serial)
    else Other(entry.serial)
  }

  /** One round of the polling loop. */
  function Poll(q: Queue): Queue
    requires Wf(q)
  {
    if Look(q).Nothing? then q
    else
      var head := Advance(q.head, q.size);
      var q1 := q.(head := head, headDoorbell := head,
                   phase := if q.head + 1 >= q.size then Flip(q.phase) else q.phase);
      if Look(q).Own? then q1.(waiting := None) else q1
  }

  function Fetch(q: Queue): Queue
    requires Wf(q) && q.sqHead != q.doorbell
  {
    q.(working := q.working + [q.sq[q.sqHead]], sqHead := Advance(q.sqHead, q.size),
       fetched := q.fetched + [q.sq[q.sqHead]])
  }

  /** The device may finish its commands in any order. */
  function Post(q: Queue, k: nat): Queue
    requires Wf(q) && k < |q.working|
  {
    var c := q.working[k];
    q.(cq := q.cq[q.cqTail := Completion(q.cqPhase, c.id, c.serial)],
       working := q.working[..k] + q.working[k + 1..],
       cqTail := Advance(q.cqTail, q.size),
       cqPhase := if q.cqTail + 1 >= q.size then Flip(q.cqPhase) else q.cqPhase)
  }

  datatype Step = DriverSubmit(id: u16, fields: seq<u32>) | DriverPoll | DeviceFetch | DevicePost(k: nat)

  /** The driver submits only when it waits for nothing and polls only when it waits. */
  predicate Enabled(q: Queue, step: Step) {
    && Wf(q)
    && match step
       case DriverSubmit(_, _) => q.waiting.None?
       case DriverPoll => q.waiting.Some?
       case DeviceFetch => q.sqHead != q.doorbell
       case DevicePost(k) => k < |q.working|
  }

  function Next(q: Queue, step: Step): Queue
    requires Enabled(q, step)
  {
    match step
    case DriverSubmit(id, fields) => Submit(q, id, fields)
    case DriverPoll => Poll(q)
    case DeviceFetch => Fetch(q)
    case DevicePost(k) => Post(q, k)
  }

  // ---------------------------------------------------------------- the protocol invariant

  /** Entries before `head` are of the driver's current lap, those from `upTo` on of the lap before. */
  ghost predicate PhasesOk(q: Queue, upTo: nat) {
    forall j | 0 <= j < |q.cq| :: q.cq[j].phase == if j < upTo then q.phase else Flip(q.phase)
  }

  ghost predicate DeviceAtHead(q: Queue) {
    q.cqTail == q.head && q.cqPhase == q.phase
  }

  ghost predicate DeviceOneAhead(q: Queue) {
    && q.cqTail == Advance(q.head, q.size)
    && q.cqPhase == if q.head + 1 >= q.size then Flip(q.phase) else q.phase
  }

  /** The command waited for, while it sits in the submission ring. */
  ghost predicate Queued(q: Queue, c: Command) {
    && q.working == [] && q.sqHead < |q.sq| && q.sq[q.sqHead] == c && Advance(q.sqHead, q.size) == q.tail
    && DeviceAtHead(q) && PhasesOk(q, q.head)
  }

  ghost predicate InWork(q: Queue, c: Command) {
    q.working == [c] && q.sqHead == q.tail && DeviceAtHead(q) && PhasesOk(q, q.head)
  }

  ghost predicate Posted(q: Queue, c: Command) {
    && q.working == [] && q.sqHead == q.tail && DeviceOneAhead(q) && PhasesOk(q, q.head + 1)
    && q.head < |q.cq| && q.cq[q.head] == Completion(q.phase, c.id, c.serial)
  }

  ghost predicate Idle(q: Queue) {
    q.working == [] && q.sqHead == q.tail && DeviceAtHead(q) && PhasesOk(q, q.head)
  }

  /** The command submitted last. */
  ghost function Latest(q: Queue): Command {
    if q.issued == [] then Command(0, [], 0) else q.issued[|q.issued| - 1]
  }

  /** With no command waited for everything is at rest; otherwise the latest command is in exactly one place. */
  ghost predicate Inv(q: Queue) {
    && Wf(q) && (q.phase == 0 || q.phase == 1) && q.doorbell == q.tail && q.headDoorbell == q.head
    && |q.issued| == q.submitted && (forall k | 0 <= k < |q.issued| :: q.issued[k].serial == k)
    && match q.waiting
       case None => Idle(q) && q.fetched == q.issued
       case Some(id) =>
         && q.submitted > 0 && Latest(q).id == id
         && (Queued(q, Latest(q)) || InWork(q, Latest(q)) || Posted(q, Latest(q)))
         && q.fetched == if Queued(q, Latest(q)) then q.issued[..q.submitted - 1] else q.issued
  }

  /** A zeroed completion ring and phase 1. */
  ghost predicate Initial(q: Queue) {
    && Wf(q) && q.submitted == 0 && q.waiting == None && q.working == []
    && q.tail == q.head == q.doorbell == q.headDoorbell == q.sqHead == q.cqTail == 0 && q.issued == q.fetched == []
    && q.phase == 1 && q.cqPhase == 1 && forall j | 0 <= j < |q.cq| :: q.cq[j].phase == 0
  }

  lemma InitialInv(q: Queue)
    requires Initial(q)
    ensures Inv(q)
  {
  }

  lemma SubmitKeepsInv(q: Queue, id: u16, fields: seq<u32>)
    requires Inv(q) && q.waiting.None?
    ensures Inv(Submit(q, id, fields)) && Queued(Submit(q, id, fields), Command(id, fields, q.submitted))
  {
  }

  lemma InvIsWf(q: Queue)
    requires Inv(q)
    ensures Wf(q)
  {
  }

  /** Something to fetch is the command waited for. */
  lemma ToFetch(q: Queue)
    requires Inv(q) && q.sqHead != q.doorbell
    ensures q.waiting.Some? && q.submitted > 0 && Queued(q, Latest(q)) && q.fetched == q.issued[..q.submitted - 1]
  {
  }

  lemma FetchKeepsInv(q: Queue)
    requires Inv(q) && q.sqHead != q.doorbell
    ensures Inv(Fetch(q))
  {
    ToFetch(q);
    var q' := Fetch(q);
    assert InWork(q', Latest(q));
    assert !Queued(q', Latest(q));
    assert q'.fetched == q.issued[..q.submitted - 1] + [Latest(q)] == q.issued;
    hide PhasesOk, DeviceAtHead, InWork, Queued, Posted;
  }

  lemma PostKeepsInv(q: Queue, k: nat)
    requires Inv(q) && k < |q.working|
    ensures Inv(Post(q, k))
  {
    assert q.working[..0] + q.working[1..] == [];
    assert Posted(Post(q, k), Latest(q));
  }

  lemma PollKeepsInv(q: Queue)
    requires Inv(q) && q.waiting.Some?
    ensures Inv(Poll(q))
    ensures Look(q).Nothing? || Poll(q).waiting == None
  {
  }

  lemma StepKeepsInv(q: Queue, step: Step)
    requires Inv(q) && Enabled(q, step)
    ensures Inv(Next(q, step))
  {
    hide Inv, Submit, Fetch, Post, Poll;
    match step {
      case DriverSubmit(id, fields) => SubmitKeepsInv(q, id, fields);
      case DeviceFetch => FetchKeepsInv(q);
      case DevicePost(k) => PostKeepsInv(q, k);
      case DriverPoll => PollKeepsInv(q);
    }
  }

  /** A poll sees nothing, or the completion of the command just submitted; never anything else. */
  lemma LookIsExact(q: Queue)
    requires Inv(q) && q.waiting.Some?
    ensures q.submitted > 0 && (Look(q) == Nothing || Look(q) == Own(q.submitted - 1))
    ensures Look(q).Own? <==> Posted(q, Latest(q))
  {
  }

  // ---------------------------------------------------------------- runs

  ghost predicate IsRun(qs: seq<Queue>, steps: seq<Step>) {
    && |qs| == |steps| + 1 && Initial(qs[0])
    && forall k | 0 <= k < |steps| :: Enabled(qs[k], steps[k]) && qs[k + 1] == Next(qs[k], steps[k])
  }

  /** The commands given to the driver, in order. */
  function Submitted(steps: seq<Step>): (cs: seq<Command>) {
    if steps == [] then []
    else
      var cs, last := Submitted(steps[..|steps| - 1]), steps[|steps| - 1];
      if last.DriverSubmit? then cs + [Command(last.id, last.fields, |cs|)] else cs
  }

  lemma StepIssues(q: Queue, step: Step)
    requires Inv(q) && Enabled(q, step)
    ensures Next(q, step).issued ==
            q.issued + if step.DriverSubmit? then [Command(step.id, step.fields, |q.issued|)] else []
  {
    hide Idle, Queued, InWork, Posted;
  }

  lemma FetchedIsPrefix(q: Queue)
    requires Inv(q)
    ensures q.fetched <= q.issued
  {
    hide Idle, Queued, InWork, Posted;
  }

  /**
   For every interleaving and any number of laps: a wait ends only on the completion
   posted for the command just submitted, whichever ids are reused, and the branch
   that skips other completions is never taken; the device reads exactly the commands given
   to the driver, in order, once each.
   */
  lemma {:induction false} WaitsEndRight(qs: seq<Queue>, steps: seq<Step>, k: nat)
    requires IsRun(qs, steps) && k < |qs|
    ensures Inv(qs[k])
    ensures k < |steps| && steps[k].DriverPoll? ==>
              && qs[k].submitted > 0
              && (Look(qs[k]) == Nothing || Look(qs[k]) == Own(qs[k].submitted - 1))
    ensures qs[k].issued == Submitted(steps[..k]) && qs[k].fetched <= qs[k].issued
    decreases k
  {
    hide Inv, Submit, Fetch, Post, Poll, Look;
    if k == 0 {
      InitialInv(qs[0]);
    } else {
      WaitsEndRight(qs, steps, k - 1);
      StepKeepsInv(qs[k - 1], steps[k - 1]);
      StepIssues(qs[k - 1], steps[k - 1]);
      assert steps[..k][..k - 1] == steps[..k - 1];
    }
    FetchedIsPrefix(qs[k]);
    if k < |steps| && steps[k].DriverPoll? {
      LookIsExact(qs[k]);
    }
  }

  /** Nothing is lost either: the device needs two steps, and then the next poll returns. */
  lemma DeviceStepsComplete(q: Queue)
    requires Inv(q) && q.waiting.Some?
    ensures var c := Latest(q);
            && (Queued(q, c) ==> Enabled(q, DeviceFetch) && InWork(Fetch(q), c))
            && (InWork(q, c) ==> Enabled(q, DevicePost(0)) && Posted(Post(q, 0), c))
            && (Posted(q, c) ==> Look(q) == Own(c.serial) && Idle(Poll(q)) && Poll(q).waiting == None)
  {
    assert |q.working| == 1 ==> q.working[..0] + q.working[1..] == [];
  }

  // ---------------------------------------------------------------- one wait

  /** The device takes a step if it can. */
  function AfterDevice(q: Queue, step: Step): Queue {
    if (step.DeviceFetch? || step.DevicePost?) && Enabled(q, step) then Next(q, step) else q
  }

  lemma AfterDeviceKeepsInv(q: Queue, step: Step)
    requires Inv(q)
    ensures Inv(AfterDevice(q, step)) && AfterDevice(q, step).waiting == q.waiting
    ensures AfterDevice(q, step).submitted == q.submitted
  {
    if (step.DeviceFetch? || step.DevicePost?) && Enabled(q, step) {
      StepKeepsInv(q, step);
    }
  }

  /** The polling loop against a device that takes these steps, one before each look. */
  ghost function Waited(q: Queue, schedule: seq<Step>): (Queue, bool)
    requires Inv(q) && q.waiting.Some?
    decreases |schedule|
  {
    if schedule == [] then (q, false)
    else
      AfterDeviceKeepsInv(q, schedule[0]);
      var q1 := AfterDevice(q, schedule[0]);
      PollKeepsInv(q1);
      LookIsExact(q1);
      if Look(q1).Own? then (Poll(q1), true) else Waited(Poll(q1), schedule[1..])
  }

  lemma NothingLeft(q: Queue, schedule: seq<Step>)
    requires Inv(q) && q.waiting.Some? && schedule == []
    ensures Waited(q, schedule) == (q, false)
  {
  }

  lemma WaitStep(q: Queue, schedule: seq<Step>)
    requires Inv(q) && q.waiting.Some? && schedule != []
    ensures var q1 := AfterDevice(q, schedule[0]);
            && Inv(q1) && q1.waiting == q.waiting && q1.submitted == q.submitted
            && (Look(q1).Own? <==> Posted(q1, Latest(q)))
            && (Look(q1).Own? ==> Waited(q, schedule) == (Poll(q1), true))
            && (!Look(q1).Own? ==> Poll(q1) == q1 && Waited(q, schedule) == Waited(q1, schedule[1..]))
  {
    AfterDeviceKeepsInv(q, schedule[0]);
    LookIsExact(AfterDevice(q, schedule[0]));
    hide Inv, Posted, AfterDevice;
  }

  /** Whatever the device did before: once it fetches and then posts, the wait is over. */
  lemma {:induction false} WaitEndsOncePosted(q: Queue, before: seq<Step>)
    requires Inv(q) && q.waiting.Some?
    ensures Waited(q, before + [DeviceFetch, DevicePost(0)]).1
    decreases |before|
  {
    var schedule := before + [DeviceFetch, DevicePost(0)];
    hide Inv, Posted, Queued, InWork, AfterDevice, Waited;
    WaitStep(q, schedule);
    var q1 := AfterDevice(q, schedule[0]);
    if !Look(q1).Own? {
      if before != [] {
        assert schedule[1..] == before[1..] + [DeviceFetch, DevicePost(0)];
        WaitEndsOncePosted(q1, before[1..]);
      } else {
        assert schedule[1..] == [DevicePost(0)];
        FetchedIsInWork(q);
        WaitStep(q1, [DevicePost(0)]);
        WorkedIsPosted(q1);
      }
    }
  }

  lemma FetchedIsInWork(q: Queue)
    requires Inv(q) && q.waiting.Some?
    ensures var c, q1 := Latest(q), AfterDevice(q, DeviceFetch);
            InWork(q1, c) || Posted(q1, c)
  {
    DeviceStepsComplete(q);
  }

  lemma WorkedIsPosted(q: Queue)
    requires Inv(q) && q.waiting.Some? && InWork(q, Latest(q))
    ensures Posted(AfterDevice(q, DevicePost(0)), Latest(q))
  {
    DeviceStepsComplete(q);
  }

  // ---------------------------------------------------------------- the driver's code

  class QueuePair {
    const size: nat
    const sq: array<Command>
    const cq: array<Completion>
    var submitted: nat
    var tail: nat
    var head: nat
    var phase: nat
    var waiting: Option<u16>
    var doorbell: nat
    var headDoorbell: nat
    var sqHead: nat
    var cqTail: nat
    var cqPhase: nat
    var working: seq<Command>
    ghost var issued: seq<Command>
    ghost var fetched: seq<Command>

    ghost function Abs(): Queue
      reads this, sq, cq
    {
      Queue(size, sq[..], cq[..], submitted, tail, head, phase, waiting, doorbell, headDoorbell,
            sqHead, cqTail, cqPhase, working, issued, fetched)
    }

    constructor (size: nat)
      requires size >= 2
      ensures Initial(Abs()) && this.size == size && fresh(sq) && fresh(cq)
    {
      this.size := size;
      sq := new Command[size](_ => Command(0, [], 0));
      cq := new Completion[size](_ => Completion(0, 0, 0));
      submitted, tail, head, phase, waiting := 0, 0, 0, 1, None;
      doorbell, headDoorbell, sqHead, cqTail, cqPhase, working := 0, 0, 0, 0, 1, [];
      issued, fetched := [], [];
    }

    method SubmitCommand(id: u16, fields: seq<u32>)
      requires Inv(Abs()) && waiting == None
      modifies this, sq
      ensures Abs() == Submit(old(Abs()), id, fields) && Inv(Abs())
      ensures Queued(Abs(), Command(id, fields, old(submitted)))
    {
      SubmitKeepsInv(Abs(), id, fields);
      hide Inv, Queued;
      sq[tail] := Command(id, fields, submitted);
      issued := issued + [Command(id, fields, submitted)];
      submitted := submitted + 1;
      tail := tail + 1;
      if tail >= size {
        tail := 0;
      }
      doorbell := tail;
      waiting := Some(id);
    }

    /** One device step, taken from the schedule; a step that cannot happen is skipped. */
    method DeviceStep(step: Step)
      requires Inv(Abs())
      modifies this, cq
      ensures Abs() == AfterDevice(old(Abs()), step) && Inv(Abs())
    {
      InvIsWf(Abs());
      hide Inv, Fetch, Post;
      if step.DeviceFetch? && sqHead != doorbell {
        FetchCommand();
      } else if step.DevicePost? && step.k < |working| {
        PostCompletion(step.k);
      }
    }

    method FetchCommand()
      requires Inv(Abs()) && sqHead != doorbell
      modifies this
      ensures Abs() == Fetch(old(Abs())) && Inv(Abs())
    {
      FetchKeepsInv(Abs());
      hide Inv;
      working := working + [sq[sqHead]];
      fetched := fetched + [sq[sqHead]];
      sqHead := Advance(sqHead, size);
    }

    method PostCompletion(k: nat)
      requires Inv(Abs()) && k < |working|
      modifies this, cq
      ensures Abs() == Post(old(Abs()), k) && Inv(Abs())
    {
      PostKeepsInv(Abs(), k);
      hide Inv;
      var c := working[k];
      cq[cqTail] := Completion(cqPhase, c.id, c.serial);
      working := working[..k] + working[k + 1..];
      cqPhase := if cqTail + 1 >= size then Flip(cqPhase) else cqPhase;
      cqTail := Advance(cqTail, size);
    }

    /**
     The polling loop against a device that takes the given steps before each look.
     Returns whether the wait ended, and on whose completion.
     */
    method WaitForCompletion(id: u16, schedule: seq<Step>) returns (done: bool, serial: nat)
      requires Inv(Abs()) && waiting == Some(id)
      modifies this, cq
      ensures (Abs(), done) == Waited(old(Abs()), schedule) && Inv(Abs()) && submitted == old(submitted)
      ensures done ==> waiting == None && serial == submitted - 1
      ensures !done ==> waiting == Some(id)
    {
      hide Inv, Posted, AfterDevice, Waited, Look;
      serial := 0;
      for i := 0 to |schedule|
        invariant Inv(Abs()) && waiting == Some(id) && submitted == old(submitted)
        invariant Waited(old(Abs()), schedule) == Waited(Abs(), schedule[i..])
      {
        WaitStep(Abs(), schedule[i..]);
        DeviceStep(schedule[i]);
        var own;
        own, serial := PollOnce(id);
        if own {
          return true, serial;
        }
      }
      NothingLeft(Abs(), schedule[|schedule|..]);
      return false, 0;
    }

    method PollOnce(id: u16) returns (own: bool, serial: nat)
      requires Inv(Abs()) && waiting == Some(id)
      modifies this
      ensures Abs() == Poll(old(Abs())) && Inv(Abs()) && submitted == old(submitted)
      ensures own <==> Look(old(Abs())).Own?
      ensures own ==> waiting == None && serial == submitted - 1
      ensures !own ==> waiting == Some(id)
    {
      PollKeepsInv(Abs());
      LookIsExact(Abs());
      hide Inv;
      var entry := cq[head];
      own, serial := false, 0;
      if entry.phase == phase {
        own, serial := entry.id == id, entry.serial;
        head := head + 1;
        if head >= size {
          head := 0;
          phase := if phase == 1 then 0 else 1;
        }
        headDoorbell := head;
        if own {
          waiting := None;
        }
      }
    }
  }
}
