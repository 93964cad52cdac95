/** Lost messages under a radio stack that confirms each attempt at most once: the exact condition, and a run, from a
    device that has just started, in which it is met. */
module SendQueueLoss {
  import opened Bits
  import opened UplinkPayload
  import opened SendQueue
  import opened SendQueueRuns

  // ----- One confirmation per attempt ------------------------------------------------------------

  /** Whether the stack may still confirm an attempt, and whether that went out as a confirmed message. */
  datatype Owed = Nothing | Confirmable(confirmed: bool)

  /** An attempt that the stack has taken may be confirmed until the next call of `LRW_Send`, which waits until the
      stack is idle. */
  function NextOwed(s: System, o: Owed, step: Step): Owed {
    match step
    case StartSend => if s.main == Idle then Nothing else o
    case Main(confirmed, wait) => if s.main.Sending? && !wait then Confirmable(confirmed) else o
    case Confirmation(_) => Nothing
    case _ => o
  }

  /** A confirmation comes between calls, for an attempt that may be confirmed, and with an acknowledgement only for a
      confirmed message. */
  predicate Regular(s: System, o: Owed, step: Step) {
    step.Confirmation? ==> s.main == Idle && o.Confirmable? && (step.ack ==> o.confirmed)
  }

  ghost function OwedAfter(s: System, steps: seq<Step>): Owed
    requires Shaped(s) && AllAllowed(steps)
  {
    if steps == [] then Nothing
    else
      var front := steps[..|steps| - 1];
      NextOwed(Run(s, front), OwedAfter(s, front), steps[|steps| - 1])
  }

  ghost predicate RegularRun(s: System, steps: seq<Step>)
    requires Shaped(s) && AllAllowed(steps)
  {
    steps != [] ==>
      var front := steps[..|steps| - 1];
      RegularRun(s, front) && Regular(Run(s, front), OwedAfter(s, front), steps[|steps| - 1])
  }

  /** While an attempt may be confirmed, it has been counted or is about to be. */
  predicate OwedCounted(s: System, o: Owed) {
    o.Confirmable? ==> s.main.Freeing? || (s.main == Idle && s.q.retransLeft < RETRANSMISSIONS)
  }

  lemma OwedCountedKept(s: System, o: Owed, step: Step)
    requires Shaped(s) && OwedCounted(s, o) && Allowed(step)
    ensures OwedCounted(Next(s, step), NextOwed(s, o, step))
  {
  }

  lemma {:induction false} OwedCountedInRuns(s: System, p: int, steps: seq<Step>)
    requires Initial(s, p) && AllAllowed(steps)
    ensures Shaped(s) && OwedCounted(Run(s, steps), OwedAfter(s, steps))
  {
    InitialInv(s, p);
    if steps != [] {
      var front := steps[..|steps| - 1];
      OwedCountedInRuns(s, p, front);
      OwedCountedKept(Run(s, front), OwedAfter(s, front), steps[|steps| - 1]);
    }
  }

  /** Under such a stack a message whose first attempt the duty cycle still holds back is never acknowledged: what drops
      a message unsent finds no attempts left. */
  lemma DropIsLate(s: System, p: int, steps: seq<Step>, step: Step)
    requires Initial(s, p) && Shaped(s) && AllAllowed(steps)
    requires Regular(Run(s, steps), OwedAfter(s, steps), step)
    ensures DropsUnsent(Run(s, steps), step) <==> LateAck(Run(s, steps), step)
  {
    OwedCountedInRuns(s, p, steps);
  }

  lemma {:induction false} DropsAreLate(s: System, p: int, steps: seq<Step>)
    requires Initial(s, p) && Shaped(s) && AllAllowed(steps) && RegularRun(s, steps)
    ensures NoDrop(s, steps) <==> NoLateAck(s, steps)
  {
    if steps != [] {
      var front := steps[..|steps| - 1];
      DropsAreLate(s, p, front);
      DropIsLate(s, p, front, steps[|steps| - 1]);
    }
  }

  /** Over every run under such a stack, no message is dropped before an attempt of it was let through exactly when no
      acknowledgement finds a queued slot and no attempts left. */
  lemma LostExactlyByLateAck(s: System, p: int, steps: seq<Step>)
    requires Initial(s, p) && Shaped(s) && AllAllowed(steps) && RegularRun(s, steps)
    ensures Run(s, steps).lost == {} <==> NoLateAck(s, steps)
  {
    NothingLost(s, p, steps);
    DropsAreLate(s, p, steps);
  }

  // ----- Runs ------------------------------------------------------------------------------------

  /** Some run under such a stack leads from `s` to `r` with `o` owed. */
  ghost predicate Reaches(s: System, r: System, o: Owed)
    requires Shaped(s)
  {
    exists steps :: AllAllowed(steps) && RegularRun(s, steps) && Run(s, steps) == r && OwedAfter(s, steps) == o
  }

  lemma ReachesItself(s: System)
    requires Shaped(s)
    ensures Reaches(s, s, Nothing)
  {
    assert AllAllowed([]) && RegularRun(s, []) && Run(s, []) == s && OwedAfter(s, []) == Nothing;
  }

  /** One more step of a run. */
  lemma Go(s: System, r: System, o: Owed, step: Step) returns (t: System, u: Owed)
    requires Shaped(s) && Shaped(r) && Reaches(s, r, o) && Allowed(step) && Regular(r, o, step)
    ensures Shaped(t) && t == After(r, step) && u == NextOwed(r, o, step) && Reaches(s, t, u)
  {
    var steps :| AllAllowed(steps) && RegularRun(s, steps) && Run(s, steps) == r && OwedAfter(s, steps) == o;
    var more := steps + [step];
    assert more[..|more| - 1] == steps;
    t, u := After(r, step), NextOwed(r, o, step);
    assert AllAllowed(more) && RegularRun(s, more) && Run(s, more) == t && OwedAfter(s, more) == u;
  }

  predicate AtRest(s: System) {
    s.main == Idle && s.producer == Resting
  }

  /** Slot 0 holds a message of which no attempt was let through. */
  predicate Waiting(s: System, id: nat)
    requires |s.q.slots| == |s.entries| == LRW_QUEUE_LEN
  {
    Used(s.q.slots[0]) && s.entries[0] == Entry(id, 0)
  }

  /** What the first half of queueing in slot 0 leaves. */
  lemma Seeks(r: System, payload: seq<byte>)
    requires Shaped(r) && 1 <= |payload| <= MSG_SIZE && AtRest(r) && !Used(r.q.slots[0])
    ensures After(After(r, StartEnqueue(true, Event, payload)), Producer) == r.(producer := Filling(0, Event, payload))
  {
    assert After(r, StartEnqueue(true, Event, payload)) == r.(producer := Seeking(0, Event, payload));
  }

  lemma Fills(r: System, payload: seq<byte>)
    requires Shaped(r) && r.main == Idle && r.producer == Filling(0, Event, payload)
    ensures var t := After(After(r, Producer), Producer);
            && AtRest(t) && Waiting(t, |r.accepted|) && t.done == r.done && t.lost == r.lost
            && |t.accepted| == |r.accepted| + 1
            && t.q.retransLeft == r.q.retransLeft && t.q.retransIndex == r.q.retransIndex
  {
    assert After(r, Producer).producer == Publishing(0, Event, payload);
  }

  /** A message is queued in slot 0. */
  lemma Enqueues(s: System, r: System, o: Owed, payload: seq<byte>) returns (t: System)
    requires Shaped(s) && Shaped(r) && Reaches(s, r, o)
    requires 1 <= |payload| <= MSG_SIZE && AtRest(r) && !Used(r.q.slots[0])
    ensures Shaped(t) && Reaches(s, t, o)
    ensures AtRest(t) && Waiting(t, |r.accepted|) && t.done == r.done && t.lost == r.lost
    ensures |t.accepted| == |r.accepted| + 1
    ensures t.q.retransLeft == r.q.retransLeft && t.q.retransIndex == r.q.retransIndex
  {
    Seeks(r, payload);
    var u;
    t, u := Go(s, r, o, StartEnqueue(true, Event, payload));
    t, u := Go(s, t, u, Producer);
    Fills(t, payload);
    t, u := Go(s, t, u, Producer);
    t, u := Go(s, t, u, Producer);
  }

  /** Slot 0 is under retransmission with `left` attempts left and `counted` let through. */
  predicate Underway(s: System, id: nat, left: nat)
    requires |s.q.slots| == |s.entries| == LRW_QUEUE_LEN
  {
    && Used(s.q.slots[0]) && s.q.retransIndex == 0 && s.q.retransLeft == left
    && 0 < left <= RETRANSMISSIONS && s.entries[0] == Entry(id, RETRANSMISSIONS - left)
  }

  /** The history is as before. */
  predicate SameFates(s: System, t: System) {
    t.accepted == s.accepted && t.done == s.done && t.lost == s.lost && t.producer == s.producer
  }

  lemma Picks(r: System, wait: bool)
    requires Shaped(r) && AtRest(r) && Used(r.q.slots[0])
    ensures After(After(r, StartSend), Main(true, wait)) == r.(main := Picked(0))
  {
    assert After(r, StartSend) == r.(main := Scanning(0));
  }

  /** The first attempt schedules the message. */
  lemma Schedules(r: System, id: nat)
    requires Shaped(r) && r.main == Picked(0) && r.producer == Resting && Waiting(r, id) && r.q.retransLeft == 0
    ensures var t := After(After(r, Main(true, false)), Main(true, false));
            t.main == Sending(0, false) && Underway(t, id, RETRANSMISSIONS) && SameFates(r, t)
  {
    var t := After(r, Main(true, false));
    assert t.main == Embedding(0, false) && t.q.slots == r.q.slots;
  }

  /** A later one goes out at full power. */
  lemma SchedulesAgain(r: System, id: nat, left: nat)
    requires Shaped(r) && r.main == Picked(0) && r.producer == Resting && Underway(r, id, left)
    requires r.q.power == MAX_TX_POWER
    ensures var t := After(After(r, Main(true, false)), Main(true, false));
            t.main == Sending(0, true) && Underway(t, id, left) && SameFates(r, t)
  {
    var t := After(r, Main(true, false));
    assert t.main == Embedding(0, true) && t.q.slots == r.q.slots;
  }

  lemma Raises(r: System, id: nat, left: nat)
    requires Shaped(r) && r.main == Picked(0) && r.producer == Resting && Underway(r, id, left)
    requires r.q.power != MAX_TX_POWER
    ensures var t := After(r, Main(true, false));
            AtRest(t) && Underway(t, id, left) && SameFates(r, t) && t.q.power == MAX_TX_POWER
  {
  }

  /** The stack takes an attempt, and it is counted; the last one frees the slot. */
  lemma Counts(r: System, id: nat, left: nat, forced: bool)
    requires Shaped(r) && r.main == Sending(0, forced) && r.producer == Resting && Underway(r, id, left)
    ensures var t := After(After(r, Main(true, false)), Main(true, false));
            && AtRest(t) && t.accepted == r.accepted && t.lost == r.lost
            && if left > 1 then Underway(t, id, left - 1) && t.done == r.done
               else
                 && !Used(t.q.slots[0]) && t.q.retransLeft == 0 && t.q.retransIndex == 0
                 && t.done == r.done[id := RETRANSMISSIONS]
  {
    var t := After(r, Main(true, false));
    assert t.main == Freeing(0) && t.q == r.q && t.entries[0] == Entry(id, RETRANSMISSIONS - left + 1);
  }

  /** From the moment the message in slot 0 goes to the radio. */
  lemma LetsThrough(s: System, r: System, o: Owed, id: nat, left: nat, forced: bool) returns (t: System, u: Owed)
    requires Shaped(s) && Shaped(r) && Reaches(s, r, o)
    requires r.main == Sending(0, forced) && r.producer == Resting && Underway(r, id, left)
    ensures Shaped(t) && Reaches(s, t, u) && u == Confirmable(true)
    ensures AtRest(t) && t.accepted == r.accepted && t.lost == r.lost
    ensures left > 1 ==> Underway(t, id, left - 1) && t.done == r.done
    ensures left == 1 ==> !Used(t.q.slots[0]) && t.q.retransLeft == 0 && t.q.retransIndex == 0
    ensures left == 1 ==> t.done == r.done[id := RETRANSMISSIONS]
  {
    Counts(r, id, left, forced);
    t, u := Go(s, r, o, Main(true, false));
    t, u := Go(s, t, u, Main(true, false));
  }

  /** The message in slot 0 is picked. */
  lemma PicksSlot(s: System, r: System, o: Owed) returns (t: System)
    requires Shaped(s) && Shaped(r) && Reaches(s, r, o) && AtRest(r) && Used(r.q.slots[0])
    ensures Shaped(t) && Reaches(s, t, Nothing) && t == r.(main := Picked(0))
  {
    Picks(r, false);
    var u;
    t, u := Go(s, r, o, StartSend);
    t, u := Go(s, t, u, Main(true, false));
  }

  /** The first attempt of the message in slot 0. */
  lemma SendsFirst(s: System, r: System, o: Owed, id: nat) returns (t: System, u: Owed)
    requires Shaped(s) && Shaped(r) && Reaches(s, r, o) && AtRest(r) && Waiting(r, id) && r.q.retransLeft == 0
    ensures Shaped(t) && Reaches(s, t, u) && u == Confirmable(true) && AtRest(t) && Underway(t, id, 2)
    ensures t.accepted == r.accepted && t.lost == r.lost && t.done == r.done
  {
    t := PicksSlot(s, r, o);
    Schedules(t, id);
    t, u := Go(s, t, Nothing, Main(true, false));
    t, u := Go(s, t, u, Main(true, false));
    t, u := LetsThrough(s, t, u, id, 3, false);
  }

  /** A later attempt, preceded by a call that raises the power if it is not at its maximum. */
  lemma SendsAgain(s: System, r: System, o: Owed, id: nat, left: nat) returns (t: System, u: Owed)
    requires Shaped(s) && Shaped(r) && Reaches(s, r, o) && AtRest(r) && Underway(r, id, left)
    ensures Shaped(t) && Reaches(s, t, u) && u == Confirmable(true)
    ensures AtRest(t) && t.accepted == r.accepted && t.lost == r.lost
    ensures left > 1 ==> Underway(t, id, left - 1) && t.done == r.done
    ensures left == 1 ==> !Used(t.q.slots[0]) && t.q.retransLeft == 0 && t.q.retransIndex == 0
    ensures left == 1 ==> t.done == r.done[id := RETRANSMISSIONS]
  {
    t := PicksSlot(s, r, o);
    u := Nothing;
    if r.q.power != MAX_TX_POWER {
      Raises(t, id, left);
      t, u := Go(s, t, u, Main(true, false));
      t := PicksSlot(s, t, u);
      u := Nothing;
    }
    SchedulesAgain(t, id, left);
    t, u := Go(s, t, u, Main(true, false));
    t, u := Go(s, t, u, Main(true, false));
    t, u := LetsThrough(s, t, u, id, left, true);
  }

  /** A confirmation without acknowledgement. */
  lemma NotAcknowledged(s: System, r: System, o: Owed, id: nat, left: nat) returns (t: System)
    requires Shaped(s) && Shaped(r) && Reaches(s, r, o) && o.Confirmable? && AtRest(r) && Underway(r, id, left)
    ensures Shaped(t) && Reaches(s, t, Nothing) && AtRest(t) && Underway(t, id, left)
    ensures t.accepted == r.accepted && t.lost == r.lost && t.done == r.done
  {
    var u;
    t, u := Go(s, r, o, Confirmation(false));
  }

  /** An acknowledgement of slot 0 when the message in it waits. */
  lemma Acknowledged(r: System, id: nat)
    requires Shaped(r) && AtRest(r) && r.q.retransIndex == 0 && Waiting(r, id)
    ensures var t := After(r, Confirmation(true));
            !Used(t.q.slots[0]) && t.accepted == r.accepted && t.done == r.done && t.lost == r.lost + {id}
  {
  }

  /** Three attempts of the first message, the last of them just taken by the stack. */
  lemma ThreeAttempts(s: System, p: int, payload: seq<byte>) returns (t: System, u: Owed)
    requires Initial(s, p) && Shaped(s) && 1 <= |payload| <= MSG_SIZE
    ensures Shaped(t) && Reaches(s, t, u) && u == Confirmable(true) && AtRest(t)
    ensures !Used(t.q.slots[0]) && t.q.retransLeft == 0 && t.q.retransIndex == 0
    ensures |t.accepted| == 1 && t.done == map[0 := 3] && t.lost == {}
  {
    ReachesItself(s);
    t := Enqueues(s, s, Nothing, payload);
    t, u := SendsFirst(s, t, Nothing, 0);
    t := NotAcknowledged(s, t, u, 0, 2);
    t, u := SendsAgain(s, t, Nothing, 0, 2);
    t := NotAcknowledged(s, t, u, 0, 1);
    t, u := SendsAgain(s, t, Nothing, 0, 1);
  }

  /** The third attempt of a message frees its slot when the stack takes it, the producer queues the next message there,
      and the acknowledgement of the third attempt drops that one, unsent. */
  lemma RefilledSlotIsLost(s: System, p: int, payload: seq<byte>) returns (t: System, u: Owed)
    requires Initial(s, p) && 1 <= |payload| <= MSG_SIZE
    ensures Shaped(s) && Reaches(s, t, u) && |t.accepted| == 2 && t.done == map[0 := 3] && t.lost == {1}
  {
    InitialInv(s, p);
    var r, o := ThreeAttempts(s, p, payload);
    r := Enqueues(s, r, o, payload);
    Acknowledged(r, 1);
    t, u := Go(s, r, o, Confirmation(true));
  }
}
