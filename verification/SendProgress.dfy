/** Progress of the send queue, and why a call of `LRW_Send` may be taken as one step when nothing interrupts it. */
module SendProgress {
  import opened Bits
  import opened UplinkPayload
  import opened SendQueue
  import opened SendQueueRuns

  // ----- Progress --------------------------------------------------------------------------------

  /** A call by the main loop: a send that the duty cycle does not hold back, in either mode, or a confirmation. */
  datatype Call = SendCall(confirmed: bool) | ConfirmCall(ack: bool)

  function AfterCall(q: Queue, c: Call): Queue
    requires q.Valid()
  {
    match c
    case SendCall(confirmed) => Send(q, confirmed, false)
    case ConfirmCall(ack) => Confirm(q, ack)
  }

  /** Sends that are enough to empty the queue: the attempts left and a power change for the message under way, and
      four for every other. */
  function Measure(q: Queue): int {
    if q.retransLeft > 0 then
      q.retransLeft + (if q.power != MAX_TX_POWER then 1 else 0) + 4 * (Count(q.slots) - 1)
    else
      4 * Count(q.slots)
  }

  lemma {:induction false} UsedIsCounted(q: seq<Slot>, i: nat)
    requires i < |q| && Used(q[i])
    ensures Count(q) >= 1
  {
    if i > 0 {
      UsedIsCounted(q[1..], i - 1);
    }
  }

  lemma MeasureBound(q: Queue)
    requires q.Consistent()
    ensures 0 <= Measure(q) <= 4 * Count(q.slots)
    ensures Measure(q) == 0 <==> Count(q.slots) == 0
  {
    if q.retransLeft > 0 {
      UsedIsCounted(q.slots, q.retransIndex);
    }
  }

  /** The radio takes the message of slot `i`, which leaves the queue after its last attempt. */
  lemma AttemptCounts(q: Queue, confirmed: bool, i: nat)
    requires q.Consistent() && i < LRW_QUEUE_LEN && Used(q.slots[i])
    ensures var a := Attempt(q, confirmed, i);
            && Count(a.slots) == Count(q.slots)
            && Count(Taken(a, i).slots) == Count(q.slots) - (if a.retransLeft <= 1 then 1 else 0)
  {
    var a := Attempt(q, confirmed, i);
    CountUpdate(q.slots, i, a.slots[i]);
    CountUpdate(a.slots, i, a.slots[i].(kind := NoMsg));
  }

  /** A call that only raises the power. */
  lemma RaiseProgresses(q: Queue, confirmed: bool)
    requires q.Consistent() && OnlyRaisesPower(q, confirmed)
    ensures Raise(q).Consistent() && Measure(Raise(q)) < Measure(q) && Count(q.slots) > 0
  {
    UsedIsCounted(q.slots, q.retransIndex);
  }

  /** A call that sends. */
  lemma AttemptProgresses(q: Queue, confirmed: bool, i: nat)
    requires q.Consistent() && i == Pick(q) < LRW_QUEUE_LEN && !OnlyRaisesPower(q, confirmed)
    ensures var r := Taken(Attempt(q, confirmed, i), i);
            r.Consistent() && Measure(r) < Measure(q) && Count(q.slots) > 0
  {
    UsedIsCounted(q.slots, i);
    AttemptCounts(q, confirmed, i);
  }

  lemma SendProgresses(q: Queue, confirmed: bool)
    requires q.Consistent()
    ensures var r := Send(q, confirmed, false);
            r.Consistent() && (if Count(q.slots) > 0 then Measure(r) < Measure(q) else Count(r.slots) == 0)
  {
    var i := Pick(q);
    if i >= LRW_QUEUE_LEN {
      NothingQueued(q.slots);
    } else if OnlyRaisesPower(q, confirmed) {
      RaiseProgresses(q, confirmed);
    } else {
      AttemptProgresses(q, confirmed, i);
    }
  }

  lemma ConfirmProgresses(q: Queue, ack: bool)
    requires q.Consistent()
    ensures var r := Confirm(q, ack);
            r.Consistent() && Measure(r) <= Measure(q) && Count(r.slots) <= Count(q.slots)
  {
    if ack {
      CountUpdate(q.slots, q.retransIndex, q.slots[q.retransIndex].(kind := NoMsg));
    }
    if q.retransLeft > 0 {
      UsedIsCounted(q.slots, q.retransIndex);
    }
  }

  function Sends(cs: seq<Call>): nat {
    if cs == [] then 0 else (if cs[0].SendCall? then 1 else 0) + Sends(cs[1..])
  }

  ghost function AfterAll(q: Queue, cs: seq<Call>): Queue
    requires q.Consistent()
    decreases |cs|
  {
    if cs == [] then q
    else
      SendProgresses(q, cs[0].SendCall? && cs[0].confirmed);
      ConfirmProgresses(q, cs[0].ConfirmCall? && cs[0].ack);
      AfterAll(AfterCall(q, cs[0]), cs[1..])
  }

  /** `n` queued messages are gone after `4n` sends, with confirmations of either kind and changes of the mode in
      between, as long as the duty cycle does not hold back and nothing new is queued. */
  lemma QueueEmpties(q: Queue, cs: seq<Call>)
    requires q.Consistent() && Sends(cs) >= 4 * Count(q.slots)
    ensures Count(AfterAll(q, cs).slots) == 0
  {
    MeasureBound(q);
    QueueEmptiesBy(q, cs);
  }

  lemma {:induction false} QueueEmptiesBy(q: Queue, cs: seq<Call>)
    requires q.Consistent() && Sends(cs) >= Measure(q)
    ensures Count(AfterAll(q, cs).slots) == 0
    decreases |cs|
  {
    MeasureBound(q);
    if cs != [] {
      var c := cs[0];
      SendProgresses(q, c.SendCall? && c.confirmed);
      ConfirmProgresses(q, c.ConfirmCall? && c.ack);
      var r := AfterCall(q, c);
      MeasureBound(r);
      QueueEmptiesBy(r, cs[1..]);
    }
  }

  /** The bound is met: one confirmed message, sent at less than full power and never acknowledged, takes four calls. */
  lemma FourCallsNeeded(q: Queue)
    requires q.Consistent() && q.retransLeft == 0 && q.power != MAX_TX_POWER
    requires Used(q.slots[0]) && !Used(q.slots[1]) && !Used(q.slots[2])
    ensures var s3 := Send(Send(Send(q, true, false), true, false), true, false);
            Used(s3.slots[0]) && s3.retransLeft == 1 && !Used(Send(s3, true, false).slots[0])
  {
    var s1 := Send(q, true, false);
    assert Pick(q) == 0 && s1.retransLeft == 2 && s1.power == q.power;
    SendProgresses(q, true);
    var s2 := Send(s1, true, false);
    assert s2 == Raise(s1);
    SendProgresses(s1, true);
  }

  // ----- One call, step by step ------------------------------------------------------------------

  /** Accesses that a call of `LRW_Send` still makes at most. */
  function Rank(pc: MainPc): nat {
    match pc
    case Idle => 0
    case Scanning(i) => if i < LRW_QUEUE_LEN then LRW_QUEUE_LEN - i + 4 else 5
    case Picked(_) => 4
    case Embedding(_, _) => 3
    case Sending(_, _) => 2
    case Freeing(_) => 1
  }

  lemma RankDrops(s: System, confirmed: bool, wait: bool)
    requires Shaped(s) && s.main != Idle
    ensures Rank(MainStep(s, confirmed, wait).main) < Rank(s.main)
  {
  }

  /** The rest of a call without interruption. */
  ghost function ToIdle(s: System, confirmed: bool, wait: bool): System
    requires Shaped(s)
    decreases Rank(s.main)
  {
    if s.main == Idle then s
    else
      RankDrops(s, confirmed, wait);
      ToIdle(After(s, Main(confirmed, wait)), confirmed, wait)
  }

  lemma {:induction false} ScanRuns(s: System, i: nat, confirmed: bool, wait: bool)
    requires Shaped(s) && s.main == Scanning(i)
    requires Shaped(s.(main := Picked(First(s.q.slots, true, i))))
    ensures ToIdle(s, confirmed, wait) == ToIdle(s.(main := Picked(First(s.q.slots, true, i))), confirmed, wait)
    decreases LRW_QUEUE_LEN - i
  {
    if !Used(s.q.slots[i]) && i + 1 < LRW_QUEUE_LEN {
      ScanRuns(After(s, Main(confirmed, wait)), i + 1, confirmed, wait);
    }
  }

  /** The log that a call adds to: what it hands to the radio, with the number of the message in that slot. */
  function Logged(s: System, confirmed: bool): seq<LogEntry>
    requires Shaped(s)
  {
    match SentBy(s.q, confirmed)
    case Silent => s.log
    case Sent(slot, payload, power, repeated) =>
      s.log + [LogEntry(s.entries[slot].id, payload, power, repeated && confirmed)]
  }

  /** Once a message is picked, the call ends without a transmission, or goes on to embed the power. */
  lemma PickedEnds(s: System, confirmed: bool, wait: bool)
    requires Shaped(s) && s.main == Picked(First(s.q.slots, true, 0)) && MainStep(s, confirmed, wait).main == Idle
    ensures MainStep(s, confirmed, wait).q == Send(s.q, confirmed, wait)
    ensures MainStep(s, confirmed, wait).log == Logged(s, confirmed)
  {
  }

  lemma PickedGoesOn(s: System, confirmed: bool, wait: bool)
    requires Shaped(s) && s.main == Picked(First(s.q.slots, true, 0)) && MainStep(s, confirmed, wait).main != Idle
    ensures var t := MainStep(s, confirmed, wait);
            && t.main.Embedding? && Shaped(t)
            && Send(s.q, confirmed, wait)
               == (if wait then Embed(t.q, t.main.i) else Taken(Embed(t.q, t.main.i), t.main.i))
            && Logged(s, confirmed) == t.log + [Embedded(t)]
  {
    ScanKept(s, confirmed, wait);
  }

  /** What the log will say of the message whose power is about to be embedded. */
  function Embedded(s: System): LogEntry
    requires Shaped(s) && s.main.Embedding?
  {
    LogEntry(s.entries[s.main.i].id, Payload(Embed(s.q, s.main.i).slots[s.main.i]), s.q.power, s.main.forced)
  }

  lemma FreeingRuns(s: System, i: nat, confirmed: bool, wait: bool)
    requires Shaped(s) && s.main == Freeing(i)
    ensures ToIdle(s, confirmed, wait).main == Idle && ToIdle(s, confirmed, wait).q == Taken(s.q, i)
    ensures ToIdle(s, confirmed, wait).log == s.log
  {
    var t := After(s, Main(confirmed, wait));
    assert ToIdle(t, confirmed, wait) == t;
  }

  lemma SendingRuns(s: System, i: nat, forced: bool, confirmed: bool, wait: bool)
    requires Shaped(s) && s.main == Sending(i, forced)
    ensures ToIdle(s, confirmed, wait).main == Idle
    ensures ToIdle(s, confirmed, wait).q == if wait then s.q else Taken(s.q, i)
    ensures ToIdle(s, confirmed, wait).log
            == s.log + [LogEntry(s.entries[i].id, Payload(s.q.slots[i]), s.q.power, forced)]
  {
    var t := After(s, Main(confirmed, wait));
    assert t.q == s.q;
    if wait {
      assert ToIdle(t, confirmed, wait) == t;
    } else {
      FreeingRuns(t, i, confirmed, wait);
    }
  }

  lemma EmbeddingRuns(s: System, confirmed: bool, wait: bool)
    requires Shaped(s) && s.main.Embedding?
    ensures var r, e := ToIdle(s, confirmed, wait), Embed(s.q, s.main.i);
            && r.main == Idle
            && r.q == (if wait then e else Taken(e, s.main.i))
            && r.log == s.log + [Embedded(s)]
  {
    SendingRuns(After(s, Main(confirmed, wait)), s.main.i, s.main.forced, confirmed, wait);
  }

  lemma PickedRuns(s: System, confirmed: bool, wait: bool)
    requires Shaped(s) && s.main == Picked(First(s.q.slots, true, 0))
    ensures var r := ToIdle(s, confirmed, wait);
            r.main == Idle && r.q == Send(s.q, confirmed, wait) && r.log == Logged(s, confirmed)
  {
    OneMoreStep(s, confirmed, wait);
    var t := After(s, Main(confirmed, wait));
    if t.main == Idle {
      PickedEnds(s, confirmed, wait);
      IdleStays(t, confirmed, wait);
    } else {
      PickedGoesOn(s, confirmed, wait);
      EmbeddingRuns(t, confirmed, wait);
    }
  }

  lemma IdleStays(s: System, confirmed: bool, wait: bool)
    requires Shaped(s) && s.main == Idle
    ensures ToIdle(s, confirmed, wait) == s
  {
  }

  lemma OneMoreStep(s: System, confirmed: bool, wait: bool)
    requires Shaped(s) && s.main != Idle
    ensures ToIdle(s, confirmed, wait) == ToIdle(After(s, Main(confirmed, wait)), confirmed, wait)
  {
  }

  /** Without interruption the accesses of a call add up to `Send`, and its transmission is the one they log: the
      message whose turn it is, with the channel's power embedded. */
  lemma SendIsRun(s: System, confirmed: bool, wait: bool)
    requires Shaped(s) && s.main == Idle
    ensures var start := After(s, StartSend);
            && ToIdle(start, confirmed, wait).main == Idle
            && ToIdle(start, confirmed, wait).q == Send(s.q, confirmed, wait)
            && ToIdle(start, confirmed, wait).log == Logged(s, confirmed)
    ensures var tx := SentBy(s.q, confirmed);
            tx.Sent? ==> CarriesMessage(s.q, confirmed, tx)
  {
    SentCarriesMessage(s.q, confirmed);
    var start := After(s, StartSend);
    ScanRuns(start, 0, confirmed, wait);
    PickedRuns(start.(main := Picked(First(s.q.slots, true, 0))), confirmed, wait);
  }

  // ----- One queued message, step by step --------------------------------------------------------

  function ProducerRank(pc: ProducerPc): nat {
    match pc
    case Resting => 0
    case Seeking(i, _, _) => if i < LRW_QUEUE_LEN then LRW_QUEUE_LEN - i + 2 else 3
    case Filling(_, _, _) => 2
    case Publishing(_, _, _) => 1
  }

  lemma ProducerRankDrops(s: System)
    requires Shaped(s) && s.producer != Resting
    ensures ProducerRank(ProducerStep(s).producer) < ProducerRank(s.producer)
  {
  }

  ghost function ToResting(s: System): System
    requires Shaped(s)
    decreases ProducerRank(s.producer)
  {
    if s.producer == Resting then s
    else
      ProducerRankDrops(s);
      ToResting(After(s, Producer))
  }

  /** From the slot found on, filling it and setting its type puts the message there. */
  lemma FillingRuns(s: System, i: nat, kind: MsgType, payload: seq<byte>)
    requires Shaped(s) && s.producer == Filling(i, kind, payload)
    ensures var t := ToResting(s);
            && t.producer == Resting
            && t.q == if kind == NoMsg then s.q
                      else s.q.(slots := s.q.slots[i := Slot(kind, |payload|, Overwrite(s.q.slots[i].msg, 0, payload))])
  {
    var s1 := After(s, Producer);
    if kind == NoMsg {
      assert ToResting(s1) == s1;
    } else {
      var s2 := After(s1, Producer);
      assert ToResting(s1) == ToResting(s2) == s2;
    }
  }

  /** Without interruption the accesses of the producer add up to `Enqueue`. */
  lemma {:induction false} EnqueueIsRun(s: System, i: nat, kind: MsgType, payload: seq<byte>)
    requires Shaped(s) && s.producer == Seeking(i, kind, payload)
    requires First(s.q.slots, false, i) == First(s.q.slots, false, 0)
    ensures ToResting(s).producer == Resting && ToResting(s).q == Enqueue(s.q, true, kind, payload)
    decreases LRW_QUEUE_LEN - i
  {
    var t := After(s, Producer);
    if !Used(s.q.slots[i]) {
      FillingRuns(t, i, kind, payload);
    } else if i + 1 < LRW_QUEUE_LEN {
      EnqueueIsRun(t, i + 1, kind, payload);
    } else {
      assert ToResting(t) == t;
    }
  }
}
