/** The event ring: the controller produces, `process_events` consumes; there is no Link TRB. */
module XhciEvents {
  import opened Bytes
  import opened Xhci

  /**
   The controller owns `enqueue` and `cycle`, the driver `dequeue` and `driverCycle`.
   `posted` are the TRBs the controller was to post, `handled` those the driver has read.
   */
  datatype Events = Events(
    trbs: seq<Trb>, enqueue: nat, cycle: bool, dequeue: nat, driverCycle: bool, posted: seq<Trb>, handled: seq<Trb>)

  predicate WfEvents(r: Events) {
    |r.trbs| > 0 && r.enqueue < |r.trbs| && r.dequeue < |r.trbs|
  }

  function Post(r: Events, t: Trb): Events
    requires WfEvents(r)
  {
    var wraps := r.enqueue + 1 >= |r.trbs|;
    r.(trbs := r.trbs[r.enqueue := WithCycle(t, r.cycle)], enqueue := if wraps then 0 else r.enqueue + 1,
       cycle := if wraps then !r.cycle else r.cycle, posted := r.posted + [t])
  }

  /** One round of the loop in `process_events`. */
  function Handle(r: Events): Events
    requires WfEvents(r)
  {
    var t := r.trbs[r.dequeue];
    if CycleBit(t) != r.driverCycle then r
    else
      var wraps := r.dequeue + 1 >= |r.trbs|;
      r.(dequeue := if wraps then 0 else r.dequeue + 1, driverCycle := if wraps then !r.driverCycle else r.driverCycle,
         handled := r.handled + [t])
  }

  function Unhandled(r: Events): int {
    |r.posted| - |r.handled|
  }

  ghost predicate EventCyclesOk(r: Events) {
    && WfEvents(r)
    && forall j | 0 <= j < |r.trbs| :: CycleBit(r.trbs[j]) == (if j < r.enqueue then r.cycle else !r.cycle)
  }

  ghost predicate EventsInOrder(r: Events) {
    if r.cycle == r.driverCycle then r.dequeue <= r.enqueue else r.enqueue <= r.dequeue
  }

  ghost function EventsPending(r: Events): seq<Trb>
    requires WfEvents(r)
  {
    if r.cycle == r.driverCycle
    then (if r.dequeue <= r.enqueue then r.trbs[r.dequeue..r.enqueue] else [])
    else r.trbs[r.dequeue..] + r.trbs[..r.enqueue]
  }

  ghost predicate EventsInv(r: Events) {
    && EventCyclesOk(r) && EventsInOrder(r)
    && |r.handled| <= |r.posted| && Matches(r.handled, r.posted[..|r.handled|])
    && Matches(EventsPending(r), r.posted[|r.handled|..])
  }

  lemma UnhandledIsPending(r: Events)
    requires EventsInv(r)
    ensures Unhandled(r) == |EventsPending(r)| ==
            if r.cycle == r.driverCycle then r.enqueue - r.dequeue else |r.trbs| - r.dequeue + r.enqueue
  {
  }

  lemma NothingToHandle(r: Events)
    requires EventCyclesOk(r) && EventsInOrder(r) && EventsPending(r) == []
    ensures Handle(r) == r
  {
    hide WithCycle;
    assert r.cycle == r.driverCycle && r.dequeue == r.enqueue;
  }

  lemma OldestHandled(r: Events)
    requires EventCyclesOk(r) && EventsInOrder(r) && EventsPending(r) != []
    ensures EventsPending(r)[0] == r.trbs[r.dequeue]
    ensures var wraps := r.dequeue + 1 >= |r.trbs|;
            Handle(r) == r.(dequeue := if wraps then 0 else r.dequeue + 1,
                            driverCycle := if wraps then !r.driverCycle else r.driverCycle,
                            handled := r.handled + [r.trbs[r.dequeue]])
  {
    assert CycleBit(r.trbs[r.dequeue]) == r.driverCycle;
    hide CycleBit;
  }

  lemma EventsShrink(r: Events, r': Events)
    requires EventCyclesOk(r) && EventsInOrder(r) && EventsPending(r) != []
    requires var wraps := r.dequeue + 1 >= |r.trbs|;
             r' == r.(dequeue := if wraps then 0 else r.dequeue + 1,
                      driverCycle := if wraps then !r.driverCycle else r.driverCycle, handled := r'.handled)
    ensures EventCyclesOk(r') && EventsInOrder(r') && EventsPending(r') == EventsPending(r)[1..]
  {
    hide CycleBit;
  }

  lemma HandlePending(r: Events)
    requires EventCyclesOk(r) && EventsInOrder(r)
    ensures EventCyclesOk(Handle(r)) && EventsInOrder(Handle(r)) && Handle(r).posted == r.posted
    ensures var r' := Handle(r);
            if EventsPending(r) == [] then r' == r
            else && EventsPending(r') == EventsPending(r)[1..] && EventsPending(r)[0] == r.trbs[r.dequeue]
                 && r'.handled == r.handled + [r.trbs[r.dequeue]]
  {
    assert WfEvents(r);
    hide EventCyclesOk, EventsInOrder, EventsPending, Handle;
    if EventsPending(r) == [] {
      NothingToHandle(r);
    } else {
      OldestHandled(r);
      EventsShrink(r, Handle(r));
    }
  }

  /** The driver handles the oldest unhandled event, or stops when there is none. */
  lemma HandleKeepsInv(r: Events)
    requires EventsInv(r)
    ensures EventsInv(Handle(r)) && Handle(r).posted == r.posted
    ensures Unhandled(r) >= 0
    ensures Handle(r) == r <==> Unhandled(r) == 0
    ensures Handle(r) != r ==> Unhandled(Handle(r)) == Unhandled(r) - 1
  {
    UnhandledIsPending(r);
    HandlePending(r);
    hide CycleBit, WithCycle, EventCyclesOk, EventsInOrder, EventsPending, Handle;
    var rest := r.posted[|r.handled|..];
    if Unhandled(r) > 0 {
      assert r.posted[|r.handled| + 1..] == rest[1..];
      assert r.posted[..|r.handled| + 1] == r.posted[..|r.handled|] + [rest[0]];
    }
  }

  lemma PostPending(r: Events, t: Trb)
    requires EventCyclesOk(r) && EventsInOrder(r) && |EventsPending(r)| < |r.trbs|
    ensures EventCyclesOk(Post(r, t)) && EventsInOrder(Post(r, t))
    ensures EventsPending(Post(r, t)) == EventsPending(r) + [WithCycle(t, r.cycle)]
  {
    WithCycleFacts(t, r.cycle);
    hide CycleBit, WithCycle, TrbType;
    var d, e, x := r.dequeue, r.enqueue, WithCycle(t, r.cycle);
    var trbs' := r.trbs[e := x];
    assert trbs'[..e + 1] == r.trbs[..e] + [x];
    if r.cycle == r.driverCycle {
      assert trbs'[d..e + 1] == r.trbs[d..e] + [x];
      assert e + 1 == |r.trbs| ==> trbs'[d..] == trbs'[d..e + 1];
    } else {
      assert trbs'[d..] == r.trbs[d..];
    }
  }

  lemma PostKeepsInv(r: Events, t: Trb)
    requires EventsInv(r) && Unhandled(r) < |r.trbs|
    ensures EventsInv(Post(r, t))
  {
    UnhandledIsPending(r);
    PostPending(r, t);
    WithCycleFacts(t, r.cycle);
    hide CycleBit, WithCycle, TrbType, EventCyclesOk, EventsInOrder, EventsPending;
    var k := |r.handled|;
    assert (r.posted + [t])[k..] == r.posted[k..] + [t] && (r.posted + [t])[..k] == r.posted[..k];
  }

  /** Posting into a full ring loses events: the driver then sees none although the ring is full of them. */
  lemma OverrunLosesEvents(r: Events, t: Trb)
    requires EventsInv(r) && Unhandled(r) == |r.trbs|
    ensures Handle(Post(r, t)) == Post(r, t) && Unhandled(Post(r, t)) > 0 && !EventsInv(Post(r, t))
  {
    UnhandledIsPending(r);
    WithCycleFacts(t, r.cycle);
    hide CycleBit, WithCycle, TrbType;
    if EventsInv(Post(r, t)) {
      UnhandledIsPending(Post(r, t));
    }
  }

  // ---------------------------------------------------------------- runs

  datatype EventStep = Controller(trb: Trb) | Driver

  ghost predicate IsEventRun(rs: seq<Events>, steps: seq<EventStep>) {
    && |rs| == |steps| + 1 && EventsInv(rs[0])
    && forall k | 0 <= k < |steps| ::
         && WfEvents(rs[k]) && (steps[k].Controller? ==> Unhandled(rs[k]) < |rs[k].trbs|)
         && rs[k + 1] == if steps[k].Controller? then Post(rs[k], steps[k].trb) else Handle(rs[k])
  }

  function Posted(steps: seq<EventStep>): seq<Trb> {
    if steps == [] then []
    else
      var last := steps[|steps| - 1];
      Posted(steps[..|steps| - 1]) + if last.Controller? then [last.trb] else []
  }

  lemma PostedStep(steps: seq<EventStep>, k: nat)
    requires k < |steps|
    ensures Posted(steps[..k + 1]) == Posted(steps[..k]) + if steps[k].Controller? then [steps[k].trb] else []
  {
    assert steps[..k + 1][..k] == steps[..k];
  }

  /** A controller that never overruns: the driver handles exactly the posted events, in order, once each. */
  lemma {:induction false} EventsDelivered(rs: seq<Events>, steps: seq<EventStep>, k: nat)
    requires IsEventRun(rs, steps) && k < |rs|
    ensures EventsInv(rs[k]) && Delivered(rs[k].posted, rs[k].handled)
    ensures rs[k].posted == rs[0].posted + Posted(steps[..k])
    decreases k
  {
    hide EventsInv, Post, Handle, Delivered, WfEvents;
    if k > 0 {
      EventsDelivered(rs, steps, k - 1);
      PostedStep(steps, k - 1);
      if steps[k - 1].Controller? {
        PostKeepsInv(rs[k - 1], steps[k - 1].trb);
        PostPosts(rs[k - 1], steps[k - 1].trb);
      } else {
        HandleKeepsInv(rs[k - 1]);
      }
    }
    HandledIsPrefix(rs[k]);
  }

  lemma PostPosts(r: Events, t: Trb)
    requires WfEvents(r)
    ensures Post(r, t).posted == r.posted + [t]
  {
    hide WithCycle;
  }

  lemma HandledIsPrefix(r: Events)
    requires EventsInv(r)
    ensures Delivered(r.posted, r.handled)
  {
  }

  /** The register, busy flag set, still names the slot. */
  lemma RegisterAligned(base: nat, slot: nat)
    requires base % 16 == 0
    ensures var e := base + 16 * slot + 8;
            e - e % 16 == base + 16 * slot && (e - e % 16 - base) / 16 == slot && (e - e % 16 - base) % 16 == 0
  {
    DivModUnique(base + 16 * slot + 8, 16, base / 16 + slot, 8);
    DivModUnique(16 * slot, 16, slot, 0);
  }

  // ---------------------------------------------------------------- process_events

  class EventRing {
    const ring: array<Trb>
    const base: nat
    /** The dequeue-pointer register: an address with the busy flag in bit 3. */
    var erdp: nat
    var driverCycle: bool
    ghost var enqueue: nat
    ghost var cycle: bool
    ghost var posted: seq<Trb>
    ghost var handled: seq<Trb>

    ghost function Abs(): Events
      reads this, ring
    {
      Events(ring[..], enqueue, cycle,
             if erdp - erdp % 16 >= base then (erdp - erdp % 16 - base) / 16 else 0, driverCycle,
             posted, handled)
    }

    ghost predicate Valid()
      reads this, ring
    {
      && base % 16 == 0 && base <= erdp && (erdp - erdp % 16 - base) % 16 == 0
      && EventsInv(Abs())
    }

    constructor (ring: array<Trb>, base: nat)
      requires ring.Length > 0 && base % 16 == 0 && forall i | 0 <= i < ring.Length :: ring[i] == Trb(0, 0, 0)
      ensures Valid() && this.ring == ring && this.base == base && posted == [] && handled == []
    {
      this.ring, this.base, erdp, driverCycle := ring, base, base, true;
      enqueue, cycle, posted, handled := 0, true, [], [];
    }

    /** Handles every event that is waiting, and leaves the register at the enqueue point. */
    method ProcessEvents() returns (events: seq<Trb>)
      requires Valid()
      modifies this
      ensures Valid() && posted == old(posted) && enqueue == old(enqueue) && cycle == old(cycle)
      ensures handled == old(handled) + events && |handled| == |posted| && Delivered(posted, handled)
      ensures Abs().dequeue == enqueue && driverCycle == cycle && erdp == base + 16 * enqueue + 8
    {
      hide EventsInv, Handle;
      var value := erdp - erdp % 16;
      events := [];
      ghost var r := Abs();
      while true
        invariant value == base + 16 * r.dequeue
        invariant EventsInv(r)
                  && r == Events(ring[..], enqueue, cycle, r.dequeue, driverCycle, posted, old(handled) + events)
        invariant posted == old(posted) && enqueue == old(enqueue) && cycle == old(cycle)
        decreases Unhandled(r)
      {
        HandleKeepsInv(r);
        HandleUnfolds(r);
        var trb := ring[(value - base) / 16];
        if CycleBit(trb) != driverCycle {
          break;
        }
        events := events + [trb];
        value := value + 16;
        if value >= base + ring.Length * 16 {
          value := base;
          driverCycle := !driverCycle;
        }
        r := Handle(r);
      }
      erdp := value + 8;
      handled := r.handled;
      DrainedAtEnqueue(r);
      RegisterAligned(base, r.dequeue);
    }
  }

  lemma HandleUnfolds(r: Events)
    requires EventsInv(r)
    ensures WfEvents(r)
    ensures var t, wraps := r.trbs[r.dequeue], r.dequeue + 1 >= |r.trbs|;
            Handle(r) ==
            if CycleBit(t) != r.driverCycle then r
            else r.(dequeue := if wraps then 0 else r.dequeue + 1,
                    driverCycle := if wraps then !r.driverCycle else r.driverCycle,
                    handled := r.handled + [t])
  {
  }

  lemma DrainedAtEnqueue(r: Events)
    requires EventsInv(r) && Unhandled(r) == 0
    ensures r.dequeue == r.enqueue && r.driverCycle == r.cycle
    ensures |r.handled| == |r.posted| && Delivered(r.posted, r.handled)
  {
    UnhandledIsPending(r);
  }
}
