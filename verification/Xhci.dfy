/**
 xHCI rings (xHCI specification, sections 4.9.2 to 4.9.4 and 6.4.4.1).  A producer
 ring ends in a Link TRB that sends the consumer back to the start and toggles its
 cycle state; the event ring simply wraps.  Which TRBs are valid is told by their
 cycle bits alone.
 */
module Xhci {
  import opened Bytes

  datatype Trb = Trb(param: u64, status: u32, control: u32)

  const LINK := 6

  function CycleBit(t: Trb): bool {
    t.control % 2 == 1
  }

  function TrbType(t: Trb): nat {
    t.control / 1024 % 64
  }

  /** Bit 1 of a Link TRB: toggle the consumer's cycle state. */
  function ToggleCycle(t: Trb): bool {
    t.control / 2 % 2 == 1
  }

  function WithCycle(t: Trb, bit: bool): Trb {
    t.(control := t.control - t.control % 2 + (if bit then 1 else 0))
  }

  /** Two TRBs that say the same, whatever lap they are from. */
  predicate Same(a: Trb, b: Trb) {
    a.param == b.param && a.status == b.status && a.control / 2 == b.control / 2
  }

  /** Setting the cycle bit changes nothing else. */
  lemma WithCycleFacts(t: Trb, bit: bool)
    ensures CycleBit(WithCycle(t, bit)) == bit
    ensures Same(WithCycle(t, bit), t)
    ensures TrbType(WithCycle(t, bit)) == TrbType(t) && ToggleCycle(WithCycle(t, bit)) == ToggleCycle(t)
  {
    var half := t.control / 2;
    assert t.control == 2 * half + t.control % 2;
    assert WithCycle(t, bit).control / 2 == half;
    assert WithCycle(t, bit).control / 1024 == half / 512 == t.control / 1024;
  }

  // ---------------------------------------------------------------- the producer ring

  /**
   At `address`, usable entries of 16 bytes each, then the Link TRB.  The producer owns
   `enqueue` and `cycle`, the consumer `dequeue` and `consumerCycle`.  `sent` are the TRBs
   given to the producer, `received` those the consumer has read.
   */
  datatype Ring = Ring(
    address: u64, trbs: seq<Trb>, enqueue: nat, cycle: bool, dequeue: nat, consumerCycle: bool,
    sent: seq<Trb>, received: seq<Trb>)

  function Slots(r: Ring): int {
    |r.trbs| - 1
  }

  predicate Wf(r: Ring) {
    && |r.trbs| >= 2 && r.enqueue < Slots(r) && r.dequeue <= Slots(r)
    && TrbType(r.trbs[Slots(r)]) == LINK && ToggleCycle(r.trbs[Slots(r)]) && r.trbs[Slots(r)].param == r.address
  }

  /** `enqueue`: the driver does not check for room. */
  function Enqueue(r: Ring, t: Trb): Ring
    requires Wf(r)
  {
    var n := Slots(r);
    var trbs1 := r.trbs[r.enqueue := WithCycle(t, r.cycle)];
    var sent1 := r.sent + [t];
    if r.enqueue + 1 >= n
    then r.(trbs := trbs1[n := WithCycle(trbs1[n], r.cycle)], enqueue := 0, cycle := !r.cycle, sent := sent1)
    else r.(trbs := trbs1, enqueue := r.enqueue + 1, sent := sent1)
  }

  /** The entry at an address; an address outside the ring leads the consumer nowhere, here back to the Link. */
  function EntryAt(r: Ring, a: u64): (i: nat)
    requires Wf(r)
    ensures i <= Slots(r)
  {
    if r.address <= a && (a - r.address) / 16 <= Slots(r) then (a - r.address) / 16 else Slots(r)
  }

  /** A consumer obeying the cycle bit: take a TRB, follow the Link, or wait. */
  function Consume(r: Ring): Ring
    requires Wf(r)
  {
    var t := r.trbs[r.dequeue];
    if CycleBit(t) != r.consumerCycle then r
    else if TrbType(t) == LINK then
      r.(dequeue := EntryAt(r, t.param), consumerCycle := if ToggleCycle(t) then !r.consumerCycle else r.consumerCycle)
    else if r.dequeue + 1 <= Slots(r) then
      r.(dequeue := r.dequeue + 1, received := r.received + [t])
    else r
  }

  function Outstanding(r: Ring): int {
    |r.sent| - |r.received|
  }

  // ---------------------------------------------------------------- invariant

  /** Entries the producer has written on this lap carry its cycle bit; the rest, and the Link, the opposite. */
  ghost predicate CyclesOk(r: Ring) {
    && Wf(r)
    && (forall j | 0 <= j < Slots(r) :: CycleBit(r.trbs[j]) == (if j < r.enqueue then r.cycle else !r.cycle))
    && CycleBit(r.trbs[Slots(r)]) == !r.cycle
    && forall j | 0 <= j < Slots(r) :: TrbType(r.trbs[j]) != LINK
  }

  /** The entries between consumer and producer, in ring order. */
  ghost function Pending(r: Ring): seq<Trb>
    requires Wf(r)
  {
    if r.cycle == r.consumerCycle
    then (if r.dequeue <= r.enqueue then r.trbs[r.dequeue..r.enqueue] else [])
    else r.trbs[r.dequeue..Slots(r)] + r.trbs[..r.enqueue]
  }

  /** On the same lap the consumer is not past the producer; one lap behind, the producer has not caught it up. */
  ghost predicate InOrder(r: Ring) {
    if r.cycle == r.consumerCycle then r.dequeue <= r.enqueue else r.enqueue <= r.dequeue
  }

  ghost predicate Matches(pending: seq<Trb>, expected: seq<Trb>) {
    |pending| == |expected| && forall k | 0 <= k < |pending| :: Same(pending[k], expected[k])
  }

  /** What has been received is what was sent first, and the rest is waiting in the ring. */
  ghost predicate Inv(r: Ring) {
    && CyclesOk(r) && InOrder(r)
    && |r.received| <= |r.sent| && Matches(r.received, r.sent[..|r.received|])
    && Matches(Pending(r), r.sent[|r.received|..])
  }

  /** Room for one more: a free entry, and the Link not about to be rewritten under a consumer that stands on it. */
  ghost predicate Room(r: Ring) {
    Outstanding(r) < Slots(r) && !(r.dequeue == Slots(r) && r.enqueue == Slots(r) - 1)
  }

  ghost predicate Initial(r: Ring) {
    && Wf(r) && r.enqueue == 0 && r.cycle && r.dequeue == 0 && r.consumerCycle && r.sent == [] && r.received == []
    && (forall j | 0 <= j < Slots(r) :: r.trbs[j] == Trb(0, 0, 0))
    && !CycleBit(r.trbs[Slots(r)])
  }

  lemma InitialInv(r: Ring)
    requires Initial(r)
    ensures Inv(r)
  {
  }

  lemma OutstandingIsPending(r: Ring)
    requires Inv(r)
    ensures Outstanding(r) == |Pending(r)| ==
            if r.cycle == r.consumerCycle then r.enqueue - r.dequeue else Slots(r) - r.dequeue + r.enqueue
  {
  }

  lemma LinkFollowed(r: Ring)
    requires CyclesOk(r) && InOrder(r) && r.dequeue == Slots(r)
    ensures var r' := Consume(r);
            && r' == r.(dequeue := 0, consumerCycle := !r.consumerCycle)
            && CyclesOk(r') && InOrder(r') && Pending(r') == Pending(r)
  {
    assert CycleBit(r.trbs[Slots(r)]) == r.consumerCycle;
    var r' := Consume(r);
    assert r'.trbs == r.trbs;
    hide CycleBit, TrbType, ToggleCycle, WithCycle;
    assert r.trbs[Slots(r)..Slots(r)] + r.trbs[..r.enqueue] == r.trbs[..r.enqueue];
  }

  lemma NothingToConsume(r: Ring)
    requires CyclesOk(r) && InOrder(r) && r.dequeue < Slots(r) && Pending(r) == []
    ensures Consume(r) == r
  {
    hide TrbType, ToggleCycle, WithCycle;
    assert r.cycle == r.consumerCycle && r.dequeue == r.enqueue;
  }

  lemma OldestConsumed(r: Ring)
    requires CyclesOk(r) && InOrder(r) && r.dequeue < Slots(r) && Pending(r) != []
    ensures Pending(r)[0] == r.trbs[r.dequeue]
    ensures Consume(r) == r.(dequeue := r.dequeue + 1,
                             received := r.received + [r.trbs[r.dequeue]])
  {
    assert CycleBit(r.trbs[r.dequeue]) == r.consumerCycle;
    hide TrbType, ToggleCycle, WithCycle;
  }

  lemma PendingShrinks(r: Ring, r': Ring)
    requires CyclesOk(r) && InOrder(r) && r.dequeue < Slots(r) && Pending(r) != []
    requires r' == r.(dequeue := r.dequeue + 1, received := r'.received)
    ensures CyclesOk(r') && InOrder(r') && Pending(r') == Pending(r)[1..]
  {
    hide CycleBit, TrbType, ToggleCycle, WithCycle;
  }

  lemma ConsumePending(r: Ring)
    requires CyclesOk(r) && InOrder(r)
    ensures CyclesOk(Consume(r)) && InOrder(Consume(r))
    ensures var r' := Consume(r);
            if r.dequeue == Slots(r) then Pending(r') == Pending(r) && r'.received == r.received
            else if Pending(r) == [] then r' == r
            else && Pending(r') == Pending(r)[1..] && Pending(r)[0] == r.trbs[r.dequeue]
                 && r'.received == r.received + [r.trbs[r.dequeue]]
  {
    IsWellFormed(r);
    hide CyclesOk, InOrder, Pending, Consume, WithCycle;
    if r.dequeue == Slots(r) {
      LinkFollowed(r);
    } else if Pending(r) == [] {
      NothingToConsume(r);
    } else {
      OldestConsumed(r);
      PendingShrinks(r, Consume(r));
    }
  }

  lemma IsWellFormed(r: Ring)
    requires CyclesOk(r)
    ensures Wf(r)
  {
  }

  /** The consumer takes the oldest waiting TRB; standing on the Link it moves on, with nothing waiting it stays. */
  lemma ConsumeKeepsInv(r: Ring)
    requires Inv(r)
    ensures Inv(Consume(r)) && Consume(r).sent == r.sent
    ensures Outstanding(r) > 0 ==> Consume(r) != r
  {
    hide CycleBit, TrbType, ToggleCycle, WithCycle, CyclesOk, InOrder, Pending, Same;
    ConsumePending(r);
    ConsumeSent(r);
    OutstandingIsPending(r);
    var rest := r.sent[|r.received|..];
    if r.dequeue < Slots(r) && Pending(r) != [] {
      assert r.sent[|r.received| + 1..] == rest[1..];
      assert r.sent[..|r.received| + 1] == r.sent[..|r.received|] + [rest[0]];
    }
  }

  lemma ConsumeSent(r: Ring)
    requires CyclesOk(r) && InOrder(r)
    ensures Wf(r) && Consume(r).sent == r.sent
    ensures r.dequeue == Slots(r) ==> Consume(r).dequeue == 0
  {
    hide CycleBit, TrbType, ToggleCycle, WithCycle;
  }

  lemma EnqueueCycles(r: Ring, t: Trb)
    requires CyclesOk(r) && TrbType(t) != LINK
    ensures CyclesOk(Enqueue(r, t))
  {
    WithCycleFacts(t, r.cycle);
    WithCycleFacts(r.trbs[Slots(r)], r.cycle);
    hide CycleBit, TrbType, ToggleCycle, WithCycle;
  }

  lemma EnqueueFields(r: Ring, t: Trb)
    requires CyclesOk(r)
    ensures var r', e := Enqueue(r, t), r.enqueue;
            && Slots(r') == Slots(r) && r'.dequeue == r.dequeue && r'.consumerCycle == r.consumerCycle
            && r'.trbs[..Slots(r)] == r.trbs[..Slots(r)][e := WithCycle(t, r.cycle)]
            && (if e + 1 == Slots(r) then r'.enqueue == 0 && r'.cycle == !r.cycle
                else r'.enqueue == e + 1 && r'.cycle == r.cycle)
  {
    hide CycleBit, TrbType, ToggleCycle, WithCycle;
  }

  /** What writing `x` behind the waiting entries of a lap does to them. */
  lemma OneMoreWaiting(before: seq<Trb>, now: seq<Trb>, n: nat, d: nat, e: nat, x: Trb)
    requires e < n <= |before| == |now| && now[..n] == before[..n][e := x]
    ensures d <= e ==> now[d..e + 1] == before[d..e] + [x]
    ensures e < d <= n ==> now[d..n] == before[d..n]
  {
    assert forall k | 0 <= k < n :: now[k] == now[..n][k] && before[k] == before[..n][k];
  }

  lemma EnqueuePending(r: Ring, t: Trb)
    requires CyclesOk(r) && InOrder(r) && Wf(Enqueue(r, t))
    requires |Pending(r)| < Slots(r) && !(r.dequeue == Slots(r) && r.enqueue == Slots(r) - 1)
    ensures InOrder(Enqueue(r, t)) && Pending(Enqueue(r, t)) == Pending(r) + [WithCycle(t, r.cycle)]
  {
    IsWellFormed(r);
    EnqueueFields(r, t);
    hide CyclesOk, TrbType, ToggleCycle, WithCycle, Enqueue;
    var r', n, d, e := Enqueue(r, t), Slots(r), r.dequeue, r.enqueue;
    OneMoreWaiting(r.trbs, r'.trbs, n, d, e, WithCycle(t, r.cycle));
    OneMoreWaiting(r.trbs, r'.trbs, n, 0, e, WithCycle(t, r.cycle));
    assert r.trbs[0..e] == r.trbs[..e] && r'.trbs[0..e + 1] == r'.trbs[..e + 1] && r'.trbs[..0] == [];
  }

  lemma EnqueueKeepsInv(r: Ring, t: Trb)
    requires Inv(r) && Room(r) && TrbType(t) != LINK
    ensures Inv(Enqueue(r, t))
  {
    hide CycleBit, TrbType, ToggleCycle, WithCycle, CyclesOk, InOrder, Pending, Same;
    OutstandingIsPending(r);
    EnqueueCycles(r, t);
    EnqueueWf(r, t);
    EnqueuePending(r, t);
    WithCycleFacts(t, r.cycle);
    var k := |r.received|;
    assert (r.sent + [t])[k..] == r.sent[k..] + [t] && (r.sent + [t])[..k] == r.sent[..k];
  }

  lemma EnqueueWf(r: Ring, t: Trb)
    requires CyclesOk(r)
    ensures Wf(Enqueue(r, t)) && Enqueue(r, t).received == r.received
    ensures Enqueue(r, t).sent == r.sent + [t]
  {
    WithCycleFacts(r.trbs[Slots(r)], r.cycle);
    hide CycleBit, TrbType, ToggleCycle, WithCycle;
  }

  // ---------------------------------------------------------------- exactly when there is room

  /** Without room the consumer stalls with TRBs waiting: what it stands on no longer carries its cycle bit. */
  lemma NoRoomStalls(r: Ring, t: Trb)
    requires Inv(r) && !Room(r) && TrbType(t) != LINK
    ensures Wf(Enqueue(r, t)) && Consume(Enqueue(r, t)) == Enqueue(r, t) && Outstanding(Enqueue(r, t)) > 0
  {
    hide TrbType, ToggleCycle;
    EnqueueWf(r, t);
    OutstandingIsPending(r);
    WithCycleFacts(t, r.cycle);
    WithCycleFacts(r.trbs[Slots(r)], r.cycle);
    hide CycleBit, WithCycle;
  }

  /** An enqueue leaves the consumer able to go on exactly when there was room. */
  lemma ConsumerGoesOnIffRoom(r: Ring, t: Trb)
    requires Inv(r) && TrbType(t) != LINK
    ensures Wf(Enqueue(r, t))
    ensures Consume(Enqueue(r, t)) != Enqueue(r, t) <==> Room(r)
  {
    hide Enqueue, Consume, CycleBit, TrbType, Pending, CyclesOk;
    EnqueueWfOf(r, t);
    if Room(r) {
      EnqueueKeepsInv(r, t);
      ConsumeKeepsInv(Enqueue(r, t));
    } else {
      NoRoomStalls(r, t);
    }
  }

  lemma EnqueueWfOf(r: Ring, t: Trb)
    requires Inv(r)
    ensures Wf(r) && Wf(Enqueue(r, t)) && Outstanding(Enqueue(r, t)) == Outstanding(r) + 1 && Outstanding(r) >= 0
  {
    hide CycleBit, TrbType, ToggleCycle, WithCycle, Pending;
    EnqueueWf(r, t);
  }

  /** One entry fewer than the ring has is always safe, wherever the consumer stands. */
  lemma OneFewerIsSafe(r: Ring)
    requires Inv(r) && Outstanding(r) + 1 < Slots(r)
    ensures Room(r)
  {
    hide CycleBit, TrbType, ToggleCycle, WithCycle;
    OutstandingIsPending(r);
  }

  // ---------------------------------------------------------------- runs

  datatype Step = Producer(trb: Trb) | Consumer

  ghost predicate Allowed(r: Ring, step: Step) {
    Wf(r) && (step.Producer? ==> Room(r) && TrbType(step.trb) != LINK)
  }

  ghost function Next(r: Ring, step: Step): Ring
    requires Wf(r)
  {
    if step.Producer? then Enqueue(r, step.trb) else Consume(r)
  }

  ghost predicate IsRun(rs: seq<Ring>, steps: seq<Step>) {
    && |rs| == |steps| + 1 && Initial(rs[0])
    && forall k | 0 <= k < |steps| :: Allowed(rs[k], steps[k]) && rs[k + 1] == Next(rs[k], steps[k])
  }

  /** The TRBs given to the producer, in order. */
  function Produced(steps: seq<Step>): seq<Trb> {
    if steps == [] then []
    else
      var last := steps[|steps| - 1];
      Produced(steps[..|steps| - 1]) + if last.Producer? then [last.trb] else []
  }

  /** What has come out is what went in first, field by field, but for the cycle bit. */
  ghost predicate Delivered(went: seq<Trb>, came: seq<Trb>) {
    && |came| <= |went|
    && forall k | 0 <= k < |came| ::
         && came[k].param == went[k].param && came[k].status == went[k].status
         && came[k].control / 2 == went[k].control / 2
  }

  /**
   Over any number of laps and any interleaving, as long as the producer enqueues
   only when there is room: the consumer receives exactly the enqueued TRBs, in
   order, once each, and never gets past the enqueue point.
   */
  lemma {:induction false} RingDelivers(rs: seq<Ring>, steps: seq<Step>, k: nat)
    requires IsRun(rs, steps) && k < |rs|
    ensures Inv(rs[k]) && rs[k].sent == Produced(steps[..k]) && Delivered(rs[k].sent, rs[k].received)
    decreases k
  {
    hide Inv, Enqueue, Consume, Wf, Delivered;
    if k == 0 {
      InitialInv(rs[0]);
    } else {
      RingDelivers(rs, steps, k - 1);
      ProducedStep(steps, k - 1);
      if steps[k - 1].Producer? {
        EnqueueKeepsInv(rs[k - 1], steps[k - 1].trb);
        EnqueueSends(rs[k - 1], steps[k - 1].trb);
      } else {
        ConsumeKeepsInv(rs[k - 1]);
      }
    }
    ReceivedIsPrefix(rs[k]);
  }

  lemma EnqueueSends(r: Ring, t: Trb)
    requires Inv(r)
    ensures Wf(r) && Enqueue(r, t).sent == r.sent + [t]
  {
    hide CycleBit, TrbType, ToggleCycle, WithCycle, Pending;
    EnqueueWf(r, t);
  }

  lemma ProducedStep(steps: seq<Step>, k: nat)
    requires k < |steps|
    ensures Produced(steps[..k + 1]) == Produced(steps[..k]) + if steps[k].Producer? then [steps[k].trb] else []
  {
    assert steps[..k + 1][..k] == steps[..k];
  }

  lemma ReceivedIsPrefix(r: Ring)
    requires Inv(r)
    ensures Delivered(r.sent, r.received)
  {
  }

  // ---------------------------------------------------------------- a full ring that stalls

  ghost predicate NoLinks(ts: seq<Trb>) {
    forall k | 0 <= k < |ts| :: TrbType(ts[k]) != LINK
  }

  ghost predicate Bounded(rs: seq<Ring>, n: nat) {
    forall k | 0 <= k < |rs| :: Outstanding(rs[k]) <= n && Slots(rs[k]) == n
  }

  /** A run of a ring with `n` entries and never more than `n` TRBs outstanding, ending in `r`. */
  ghost predicate LeadsTo(rs: seq<Ring>, steps: seq<Step>, n: nat, r: Ring) {
    IsRun(rs, steps) && Bounded(rs, n) && rs[|steps|] == r && Inv(r)
  }

  lemma OneMoreStep(rs: seq<Ring>, steps: seq<Step>, n: nat, r: Ring, step: Step)
    returns (rs': seq<Ring>, steps': seq<Step>)
    requires LeadsTo(rs, steps, n, r) && Allowed(r, step)
    requires Outstanding(Next(r, step)) <= n && Slots(Next(r, step)) == n
    ensures LeadsTo(rs', steps', n, Next(r, step))
  {
    hide Inv, Enqueue, Consume, Wf, Room, Initial;
    rs', steps' := rs + [Next(r, step)], steps + [step];
    RingDelivers(rs', steps', |steps'|);
  }

  lemma ProducerMoves(r: Ring, t: Trb)
    requires Inv(r) && Room(r) && TrbType(t) != LINK
    ensures var r' := Enqueue(r, t);
            && Slots(r') == Slots(r) && r'.dequeue == r.dequeue && r'.consumerCycle == r.consumerCycle
            && Outstanding(r') == Outstanding(r) + 1
            && r'.enqueue == if r.enqueue + 1 == Slots(r) then 0 else r.enqueue + 1
  {
    hide CycleBit, TrbType, ToggleCycle, WithCycle, Pending;
  }

  lemma ConsumerMoves(r: Ring)
    requires Inv(r) && r.dequeue < Slots(r) && Outstanding(r) > 0
    ensures var r' := Consume(r);
            && Slots(r') == Slots(r) && r'.dequeue == r.dequeue + 1 && r'.enqueue == r.enqueue
            && Outstanding(r') == Outstanding(r) - 1
  {
    OutstandingIsPending(r);
    ConsumePending(r);
    hide CycleBit, TrbType, ToggleCycle, WithCycle, Pending;
  }

  lemma {:induction false} ProduceMore(rs: seq<Ring>, steps: seq<Step>, n: nat, r: Ring, ts: seq<Trb>)
    returns (rs': seq<Ring>, steps': seq<Step>, r': Ring)
    requires LeadsTo(rs, steps, n, r) && NoLinks(ts) && Outstanding(r) + |ts| <= n && r.enqueue + |ts| <= n
    requires r.dequeue < n || r.enqueue + |ts| < n
    ensures LeadsTo(rs', steps', n, r')
    ensures r'.dequeue == r.dequeue && Outstanding(r') == Outstanding(r) + |ts|
    ensures r'.enqueue == if ts != [] && r.enqueue + |ts| == n then 0 else r.enqueue + |ts|
    decreases |ts|
  {
    if ts == [] {
      rs', steps', r' := rs, steps, r;
    } else {
      hide Enqueue, Consume, Initial, Inv, IsRun, Bounded, TrbType;
      IsWf(r);
      ProducerMoves(r, ts[0]);
      var rs1, steps1 := OneMoreStep(rs, steps, n, r, Producer(ts[0]));
      rs', steps', r' := ProduceMore(rs1, steps1, n, Enqueue(r, ts[0]), ts[1..]);
    }
  }

  lemma IsWf(r: Ring)
    requires Inv(r)
    ensures Wf(r)
  {
  }

  lemma {:induction false} ConsumeMore(rs: seq<Ring>, steps: seq<Step>, n: nat, r: Ring, count: nat)
    returns (rs': seq<Ring>, steps': seq<Step>, r': Ring)
    requires LeadsTo(rs, steps, n, r) && count <= Outstanding(r) && r.dequeue + count <= n
    ensures LeadsTo(rs', steps', n, r')
    ensures r'.dequeue == r.dequeue + count && Outstanding(r') == Outstanding(r) - count && r'.enqueue == r.enqueue
    decreases count
  {
    if count == 0 {
      rs', steps', r' := rs, steps, r;
    } else {
      hide Enqueue, Consume, Initial, Inv, IsRun, TrbType;
      IsWf(r);
      SlotsOfLast(rs, steps, n, r);
      ConsumerMoves(r);
      var rs1, steps1 := OneMoreStep(rs, steps, n, r, Consumer);
      rs', steps', r' := ConsumeMore(rs1, steps1, n, Consume(r), count - 1);
    }
  }

  lemma SlotsOfLast(rs: seq<Ring>, steps: seq<Step>, n: nat, r: Ring)
    requires LeadsTo(rs, steps, n, r)
    ensures Slots(r) == n && Outstanding(r) <= n
  {
    hide Inv;
  }

  function FreshRing(n: nat): Ring {
    Ring(0, seq(n, _ => Trb(0, 0, 0)) + [Trb(0, 0, 6146)], 0, true, 0, true, [], [])
  }

  lemma FreshRun(n: nat)
    requires n >= 1
    ensures LeadsTo([FreshRing(n)], [], n, FreshRing(n))
  {
    InitialInv(FreshRing(n));
  }

  /**
   For a ring of every size a run that never has more TRBs outstanding than the ring has
   entries, and yet stalls: the consumer stands on the Link when the producer rewrites it.
   */
  lemma FullRingStalls(n: nat, ts: seq<Trb>) returns (rs: seq<Ring>, steps: seq<Step>, r: Ring)
    requires n >= 1 && |ts| == 2 * n && NoLinks(ts)
    ensures LeadsTo(rs, steps, n, r) && Wf(r) && r.dequeue == n && r.enqueue == n - 1
    ensures Wf(Enqueue(r, ts[2 * n - 1])) && Outstanding(Enqueue(r, ts[2 * n - 1])) == n
    ensures Consume(Enqueue(r, ts[2 * n - 1])) == Enqueue(r, ts[2 * n - 1])
  {
    FreshRun(n);
    var r0 := FreshRing(n);
    hide LeadsTo, Inv, Enqueue, Consume, TrbType, FreshRing;
    var rs1, steps1, r1 := ProduceMore([r0], [], n, r0, ts[..n]);
    var rs2, steps2, r2 := ConsumeMore(rs1, steps1, n, r1, n);
    rs, steps, r := ProduceMore(rs2, steps2, n, r2, ts[n..2 * n - 1]);
    Ended(rs, steps, n, r);
    NoRoomStalls(r, ts[2 * n - 1]);
    EnqueueWfOf(r, ts[2 * n - 1]);
  }

  lemma Ended(rs: seq<Ring>, steps: seq<Step>, n: nat, r: Ring)
    requires LeadsTo(rs, steps, n, r)
    ensures Inv(r) && Slots(r) == n
  {
    hide Inv;
  }

  // ---------------------------------------------------------------- how the stall ends

  ghost function EnqueueAll(r: Ring, ts: seq<Trb>): Ring
    requires CyclesOk(r) && NoLinks(ts)
    decreases |ts|
  {
    if ts == [] then r
    else
      EnqueueCycles(r, ts[0]);
      EnqueueAll(Enqueue(r, ts[0]), ts[1..])
  }

  lemma {:induction false} EnqueueAllFacts(r: Ring, ts: seq<Trb>)
    requires CyclesOk(r) && NoLinks(ts) && r.enqueue + |ts| <= Slots(r)
    ensures var r' := EnqueueAll(r, ts);
            && CyclesOk(r') && Slots(r') == Slots(r) && r'.dequeue == r.dequeue && r'.consumerCycle == r.consumerCycle
            && r'.received == r.received && |r'.sent| == |r.sent| + |ts|
            && (if ts != [] && r.enqueue + |ts| == Slots(r) then r'.enqueue == 0 && r'.cycle == !r.cycle
                else r'.enqueue == r.enqueue + |ts| && r'.cycle == r.cycle)
    decreases |ts|
  {
    if ts != [] {
      EnqueueCycles(r, ts[0]);
      OneEnqueued(r, ts[0]);
      hide Enqueue, CyclesOk, TrbType;
      var r1 := Enqueue(r, ts[0]);
      if |ts| > 1 {
        EnqueueAllFacts(r1, ts[1..]);
      }
    }
  }

  lemma OneEnqueued(r: Ring, t: Trb)
    requires CyclesOk(r)
    ensures var r' := Enqueue(r, t);
            && Slots(r') == Slots(r) && r'.dequeue == r.dequeue && r'.consumerCycle == r.consumerCycle
            && r'.received == r.received && |r'.sent| == |r.sent| + 1
            && (if r.enqueue + 1 == Slots(r) then r'.enqueue == 0 && r'.cycle == !r.cycle
                else r'.enqueue == r.enqueue + 1 && r'.cycle == r.cycle)
  {
    hide CycleBit, TrbType, ToggleCycle, WithCycle;
  }

  /**
   The stall of `FullRingStalls` lasts until the producer comes round to the Link again.  The
   consumer then leaves it, but finds a lap it has no cycle bit for and waits.
   */
  lemma StallLastsALap(r: Ring, t: Trb, us: seq<Trb>)
    requires Inv(r) && r.dequeue == Slots(r) && r.enqueue == Slots(r) - 1 && TrbType(t) != LINK
    requires NoLinks(us) && |us| <= Slots(r)
    ensures CyclesOk(Enqueue(r, t))
    ensures var r' := EnqueueAll(Enqueue(r, t), us);
            && Wf(r') && r'.received == r.received && Outstanding(r') == Outstanding(r) + 1 + |us|
            && (|us| < Slots(r) ==> Consume(r') == r')
            && (|us| == Slots(r) ==>
                  && Consume(r') != r' && Wf(Consume(r')) && Consume(Consume(r')) == Consume(r')
                  && Consume(r').received == r.received)
  {
    EnqueueCycles(r, t);
    OneEnqueued(r, t);
    BehindOnLink(r);
    var r1 := Enqueue(r, t);
    hide Enqueue, Pending, Inv;
    EnqueueAllFacts(r1, us);
    hide TrbType, EnqueueAll;
    var r' := EnqueueAll(r1, us);
    LinkDecides(r');
  }

  ghost predicate OneMore(before: seq<Trb>, after: seq<Trb>, u: Trb) {
    |after| == |before| + 1 && after[..|before|] == before && Same(after[|before|], u)
  }

  /**
   What it receives next is the TRB that is sent after all this: two laps of TRBs are
   outstanding by then, and all of them are skipped.
   */
  lemma TwoLapsAreLost(r: Ring, t: Trb, us: seq<Trb>, u: Trb)
    requires Inv(r) && r.dequeue == Slots(r) && r.enqueue == Slots(r) - 1 && TrbType(t) != LINK
    requires NoLinks(us) && |us| == Slots(r) && TrbType(u) != LINK
    ensures CyclesOk(Enqueue(r, t))
    ensures var r' := EnqueueAll(Enqueue(r, t), us);
            && Outstanding(r') == 2 * Slots(r) && Wf(r') && Wf(Consume(r')) && Wf(Enqueue(Consume(r'), u))
            && OneMore(r.received, Consume(Enqueue(Consume(r'), u)).received, u)
  {
    StallLastsALap(r, t, us);
    OutstandingIsPending(r);
    BehindOnLink(r);
    EnqueueCycles(r, t);
    OneEnqueued(r, t);
    var r1 := Enqueue(r, t);
    hide Enqueue, Pending, Inv;
    EnqueueAllFacts(r1, us);
    hide TrbType, EnqueueAll;
    var r' := EnqueueAll(r1, us);
    NextLapIsTaken(r', u);
  }

  lemma NextLapIsTaken(r: Ring, u: Trb)
    requires CyclesOk(r) && r.dequeue == Slots(r) && r.consumerCycle != r.cycle && r.enqueue == 0 && TrbType(u) != LINK
    ensures Wf(Consume(r)) && Wf(Enqueue(Consume(r), u))
    ensures OneMore(r.received, Consume(Enqueue(Consume(r), u)).received, u)
  {
    WithCycleFacts(u, r.cycle);
    WithCycleFacts(r.trbs[Slots(r)], r.cycle);
    hide CycleBit, TrbType, ToggleCycle, WithCycle;
  }

  lemma BehindOnLink(r: Ring)
    requires Inv(r) && r.dequeue == Slots(r)
    ensures r.consumerCycle == !r.cycle && CyclesOk(r)
  {
    hide CycleBit, TrbType, ToggleCycle, WithCycle;
  }

  /**
   A consumer on the Link moves exactly when it is a lap behind; at the start it then waits for
   the next lap's bit.
   */
  lemma LinkDecides(r: Ring)
    requires CyclesOk(r) && r.dequeue == Slots(r)
    ensures r.consumerCycle == r.cycle ==> Consume(r) == r
    ensures r.consumerCycle != r.cycle ==>
              && Consume(r) != r && Wf(Consume(r)) && Consume(r).received == r.received
              && (r.enqueue == 0 ==> Consume(Consume(r)) == Consume(r))
  {
    hide TrbType, ToggleCycle, WithCycle;
  }

  // ---------------------------------------------------------------- the driver's producer ring

  class TransferRing {
    const base: array<Trb>
    /** Where `base` lies. */
    const address: u64
    const size: nat
    var enqueueIndex: nat
    var cycleBit: bool
    ghost var sent: seq<Trb>
    ghost var dequeue: nat
    ghost var consumerCycle: bool
    ghost var received: seq<Trb>

    ghost function Abs(): Ring
      reads this, base
    {
      Ring(address, base[..], enqueueIndex, cycleBit, dequeue, consumerCycle, sent, received)
    }

    ghost predicate Valid()
      reads this, base
    {
      base.Length == size + 1 && Wf(Abs())
    }

    /** Zeroes the buffer and puts a toggling Link TRB at its end. */
    constructor (buffer: array<Trb>, address: u64)
      requires buffer.Length >= 2
      modifies buffer
      ensures Valid() && Initial(Abs()) && base == buffer && this.address == address && size == buffer.Length - 1
      ensures base[size] == Trb(address, 0, 6146)
    {
      base, size := buffer, buffer.Length - 1;
      this.address := address;
      enqueueIndex, cycleBit := 0, true;
      sent, dequeue, consumerCycle, received := [], 0, true, [];
      new;
      forall i | 0 <= i < buffer.Length {
        buffer[i] := Trb(0, 0, 0);
      }
      buffer[buffer.Length - 1] := Trb(address, 0, LINK * 1024 + 2);
    }

    method Push(trb: Trb)
      requires Valid()
      modifies this, base
      ensures Abs() == Enqueue(old(Abs()), trb) && Valid()
      ensures var x := base[old(enqueueIndex)];
              && x.param == trb.param && x.status == trb.status && x.control / 2 == trb.control / 2
              && (x.control % 2 == 1 <==> old(cycleBit))
      ensures forall i | 0 <= i < size && i != old(enqueueIndex) :: base[i] == old(base[i])
    {
      WithCycleFacts(trb, cycleBit);
      EnqueueTotal(Abs(), trb);
      hide CycleBit, TrbType, ToggleCycle, WithCycle, Wf;
      base[enqueueIndex] := WithCycle(trb, cycleBit);
      enqueueIndex := enqueueIndex + 1;
      if enqueueIndex >= size {
        base[size] := WithCycle(base[size], cycleBit);
        enqueueIndex := 0;
        cycleBit := !cycleBit;
      }
      sent := sent + [trb];
    }
  }

  lemma EnqueueTotal(r: Ring, t: Trb)
    requires Wf(r)
    ensures Wf(Enqueue(r, t)) && 0 <= r.enqueue < Slots(r)
  {
    WithCycleFacts(r.trbs[Slots(r)], r.cycle);
    hide CycleBit, TrbType, ToggleCycle, WithCycle;
  }
}
