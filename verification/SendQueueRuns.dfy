/** The send queue under interleaving: an interrupt that queues messages may run between any two accesses of the sender
    to the shared slots, and the sender between any two accesses of the producer.

    The state adds history that the firmware does not keep: which message each slot holds, how often it was sent, and
    what became of every message that was ever accepted. */
module SendQueueRuns {
  import opened Bits
  import opened UplinkPayload
  import opened SendQueue

  /** Where the main context is in `LRW_Send`; `forced` marks a repeated attempt in confirmed mode. */
  datatype MainPc =
    | Idle
    | Scanning(i: nat)
    | Picked(i: nat)
    | Embedding(i: nat, forced: bool)
    | Sending(i: nat, forced: bool)
    | Freeing(i: nat)

  /** Where the producer is in `enqueueToSend`. */
  datatype ProducerPc =
    | Resting
    | Seeking(i: nat, kind: MsgType, payload: seq<byte>)
    | Filling(i: nat, kind: MsgType, payload: seq<byte>)
    | Publishing(i: nat, kind: MsgType, payload: seq<byte>)

  /** History of the message in a slot: its number, and its attempts that the duty cycle let through. */
  datatype Entry = Entry(id: nat, counted: nat)

  datatype LogEntry = LogEntry(id: nat, payload: seq<byte>, power: int, forced: bool)

  datatype System = System(
    q: Queue,
    main: MainPc,
    producer: ProducerPc,
    entries: seq<Entry>,
    accepted: seq<seq<byte>>,
    tried: set<nat>,
    done: map<nat, nat>,
    lost: set<nat>,
    log: seq<LogEntry>)

  /** One access. The parameters are what the environment decides: the mode, the radio's answer, acknowledgements. */
  datatype Step =
    | StartSend
    | Main(confirmed: bool, wait: bool)
    | Confirmation(ack: bool)
    | StartEnqueue(joined: bool, kind: MsgType, payload: seq<byte>)
    | Producer

  /** The history when slot `i` is freed: its message is done, or lost when no attempt was ever let through. */
  function Freed(s: System, i: nat): System
    requires i < |s.q.slots| && i < |s.entries|
  {
    if !Used(s.q.slots[i]) then s
    else if s.entries[i].counted == 0 then s.(lost := s.lost + {s.entries[i].id})
    else s.(done := s.done[s.entries[i].id := s.entries[i].counted])
  }

  function MainStep(s: System, confirmed: bool, wait: bool): System
    requires Shaped(s)
  {
    match s.main
    case Idle => s
    case Scanning(i) =>
      if Used(s.q.slots[i]) then s.(main := Picked(i))
      else if i + 1 < LRW_QUEUE_LEN then s.(main := Scanning(i + 1))
      else s.(main := Picked(LRW_QUEUE_LEN))
    case Picked(p) =>
      var i := if s.q.retransLeft > 0 then s.q.retransIndex else p;
      if i >= LRW_QUEUE_LEN then s.(main := Idle)
      else if OnlyRaisesPower(s.q, confirmed) then s.(q := Raise(s.q), main := Idle)
      else s.(q := Schedule(s.q, confirmed, i), main := Embedding(i, s.q.retransLeft > 0 && confirmed))
    case Embedding(i, forced) =>
      s.(q := Embed(s.q, i), main := Sending(i, forced))
    case Sending(i, forced) =>
      var e := s.entries[i];
      s.(entries := s.entries[i := Entry(e.id, e.counted + (if wait then 0 else 1))],
         tried := s.tried + {e.id},
         log := s.log + [LogEntry(e.id, Payload(s.q.slots[i]), s.q.power, forced)],
         main := if wait then Idle else Freeing(i))
    case Freeing(i) =>
      var t := if s.q.retransLeft <= 1 then Freed(s, i) else s;
      t.(q := Taken(s.q, i), main := Idle)
  }

  function ProducerStep(s: System): System
    requires Shaped(s)
  {
    match s.producer
    case Resting => s
    case Seeking(i, kind, payload) =>
      if !Used(s.q.slots[i]) then s.(producer := Filling(i, kind, payload))
      else if i + 1 < LRW_QUEUE_LEN then s.(producer := Seeking(i + 1, kind, payload))
      else s.(producer := Resting)
    case Filling(i, kind, payload) =>
      if kind == NoMsg then s.(producer := Resting)
      else
        var slot := s.q.slots[i].(len := |payload|, msg := Overwrite(s.q.slots[i].msg, 0, payload));
        s.(q := s.q.(slots := s.q.slots[i := slot]), producer := Publishing(i, kind, payload))
    case Publishing(i, kind, payload) =>
      s.(q := s.q.(slots := s.q.slots[i := s.q.slots[i].(kind := kind)]),
         entries := s.entries[i := Entry(|s.accepted|, 0)],
         accepted := s.accepted + [payload],
         producer := Resting)
  }

  function Next(s: System, step: Step): System
    requires Shaped(s) && Allowed(step)
  {
    match step
    case StartSend => if s.main == Idle then s.(main := Scanning(0)) else s
    case Main(confirmed, wait) => MainStep(s, confirmed, wait)
    case Confirmation(ack) =>
      if s.main != Idle then s
      else (if ack then Freed(s, s.q.retransIndex) else s).(q := Confirm(s.q, ack))
    case StartEnqueue(joined, kind, payload) =>
      if s.producer == Resting && joined then s.(producer := Seeking(0, kind, payload)) else s
    case Producer => ProducerStep(s)
  }

  ghost predicate Allowed(step: Step) {
    step.StartEnqueue? ==> 1 <= |step.payload| <= MSG_SIZE
  }

  // ----- The invariant ---------------------------------------------------------------------------

  /** The slot the sender works on is queued and is the one being retransmitted, if any; the producer's slot is free. */
  ghost predicate Shaped(s: System) {
    && s.q.Consistent()
    && |s.entries| == LRW_QUEUE_LEN
    && MainShaped(s)
    && ProducerShaped(s)
  }

  ghost predicate MainShaped(s: System)
    requires |s.q.slots| == LRW_QUEUE_LEN
  {
    match s.main
    case Idle => true
    case Scanning(i) => i < LRW_QUEUE_LEN
    case Picked(i) => i <= LRW_QUEUE_LEN && (i < LRW_QUEUE_LEN ==> Used(s.q.slots[i]))
    case Embedding(i, forced) => Working(s, i) && (forced ==> s.q.retransLeft > 0)
    case Sending(i, forced) => Working(s, i) && (forced ==> s.q.retransLeft > 0)
    case Freeing(i) => Working(s, i)
  }

  ghost predicate Working(s: System, i: nat)
    requires |s.q.slots| == LRW_QUEUE_LEN
  {
    i < LRW_QUEUE_LEN && Used(s.q.slots[i]) && (s.q.retransLeft > 0 ==> i == s.q.retransIndex)
  }

  ghost predicate ProducerShaped(s: System)
    requires |s.q.slots| == LRW_QUEUE_LEN
  {
    match s.producer
    case Resting => true
    case Seeking(i, _, payload) => i < LRW_QUEUE_LEN && 1 <= |payload| <= MSG_SIZE
    case Filling(i, _, payload) => i < LRW_QUEUE_LEN && !Used(s.q.slots[i]) && 1 <= |payload| <= MSG_SIZE
    case Publishing(i, kind, payload) =>
      && i < LRW_QUEUE_LEN && !Used(s.q.slots[i]) && 1 <= |payload| <= MSG_SIZE && kind != NoMsg
      && s.q.slots[i].len == |payload| <= |s.q.slots[i].msg|
      && Payload(s.q.slots[i]) == payload
  }

  lemma OverwriteFront(buf: seq<byte>, data: seq<byte>)
    requires |data| <= |buf|
    ensures Overwrite(buf, 0, data)[..|data|] == data
  {
  }

  /** What the sender may do to the slots without disturbing the producer: free or rewrite used ones. */
  ghost predicate KeepsFree(q: seq<Slot>, r: seq<Slot>) {
    |q| == |r| && forall i | 0 <= i < |q| && !Used(q[i]) :: r[i].len == q[i].len && r[i].msg == q[i].msg && !Used(r[i])
  }

  lemma ProducerUndisturbed(s: System, t: System)
    requires Shaped(s) && KeepsFree(s.q.slots, t.q.slots) && t.producer == s.producer
    ensures ProducerShaped(t)
  {
  }

  lemma ScanKept(s: System, confirmed: bool, wait: bool)
    requires Shaped(s) && !s.main.Freeing? && !s.main.Embedding?
    ensures Shaped(MainStep(s, confirmed, wait))
  {
    ProducerUndisturbed(s, MainStep(s, confirmed, wait));
  }

  lemma EmbedKept(s: System, confirmed: bool, wait: bool)
    requires Shaped(s) && s.main.Embedding?
    ensures Shaped(MainStep(s, confirmed, wait))
  {
    ProducerUndisturbed(s, MainStep(s, confirmed, wait));
  }

  lemma FreeKept(s: System, confirmed: bool, wait: bool)
    requires Shaped(s) && s.main.Freeing?
    ensures Shaped(MainStep(s, confirmed, wait))
  {
    ProducerUndisturbed(s, MainStep(s, confirmed, wait));
  }

  lemma ConfirmKept(s: System, ack: bool)
    requires Shaped(s)
    ensures Shaped(Next(s, Confirmation(ack)))
  {
    ProducerUndisturbed(s, Next(s, Confirmation(ack)));
  }

  lemma ProducerKept(s: System)
    requires Shaped(s)
    ensures Shaped(ProducerStep(s))
  {
    if s.producer.Filling? && s.producer.kind != NoMsg {
      OverwriteFront(s.q.slots[s.producer.i].msg, s.producer.payload);
    }
  }

  /** Every access, in whatever order, keeps the queue consistent: at most three attempts are left, the message being
      retransmitted stays queued, and sender and producer never hold the same slot. */
  lemma ShapedKept(s: System, step: Step)
    requires Shaped(s) && Allowed(step)
    ensures Shaped(Next(s, step))
  {
    match step
    case StartSend =>
    case Main(confirmed, wait) =>
      if s.main.Embedding? {
        EmbedKept(s, confirmed, wait);
      } else if s.main.Freeing? {
        FreeKept(s, confirmed, wait);
      } else {
        ScanKept(s, confirmed, wait);
      }
    case Confirmation(ack) => ConfirmKept(s, ack);
    case StartEnqueue(_, _, _) =>
    case Producer => ProducerKept(s);
  }

  /** The next state, with what every access keeps. */
  ghost function After(s: System, step: Step): (t: System)
    requires Shaped(s) && Allowed(step)
    ensures Shaped(t)
  {
    ShapedKept(s, step);
    Next(s, step)
  }

  // ----- Payloads --------------------------------------------------------------------------------

  /** Slot `i` holds the message it was accepted with, up to the embedded power. */
  ghost predicate HoldsMessage(s: System, i: nat)
    requires Shaped(s) && i < LRW_QUEUE_LEN
  {
    && s.entries[i].id < |s.accepted|
    && SameButPower(Payload(s.q.slots[i]), s.accepted[s.entries[i].id])
  }

  ghost predicate PayloadsKept(s: System)
    requires Shaped(s)
  {
    forall i | 0 <= i < LRW_QUEUE_LEN && Used(s.q.slots[i]) :: HoldsMessage(s, i)
  }

  lemma PayloadsKeptByEmbedding(s: System, confirmed: bool, wait: bool)
    requires Shaped(s) && PayloadsKept(s) && Shaped(MainStep(s, confirmed, wait)) && s.main.Embedding?
    ensures PayloadsKept(MainStep(s, confirmed, wait))
  {
    var t := MainStep(s, confirmed, wait);
    assert HoldsMessage(s, s.main.i);
    EmbeddedPayload(s.q.slots[s.main.i], s.q.power, s.accepted[s.entries[s.main.i].id]);
    forall i | 0 <= i < LRW_QUEUE_LEN && Used(t.q.slots[i]) ensures HoldsMessage(t, i) {
      assert HoldsMessage(s, i);
    }
  }

  lemma PayloadsKeptByMain(s: System, confirmed: bool, wait: bool)
    requires Shaped(s) && PayloadsKept(s) && Shaped(MainStep(s, confirmed, wait))
    ensures PayloadsKept(MainStep(s, confirmed, wait))
  {
    if s.main.Embedding? {
      PayloadsKeptByEmbedding(s, confirmed, wait);
    } else {
      MainLeavesMessages(s, confirmed, wait);
      PayloadsLeft(s, MainStep(s, confirmed, wait));
    }
  }

  /** No slot comes into use, and the used ones hold what they held. */
  ghost predicate LeavesMessages(s: System, t: System)
    requires Shaped(s)
  {
    && |t.q.slots| == |t.entries| == LRW_QUEUE_LEN && t.accepted == s.accepted
    && forall i | 0 <= i < LRW_QUEUE_LEN ::
         && (Used(t.q.slots[i]) ==> Used(s.q.slots[i]))
         && t.q.slots[i].len == s.q.slots[i].len && t.q.slots[i].msg == s.q.slots[i].msg
         && t.entries[i].id == s.entries[i].id
  }

  lemma FreeingLeavesMessages(s: System, confirmed: bool, wait: bool)
    requires Shaped(s) && s.main.Freeing?
    ensures LeavesMessages(s, MainStep(s, confirmed, wait))
  {
  }

  lemma MainLeavesMessages(s: System, confirmed: bool, wait: bool)
    requires Shaped(s) && !s.main.Embedding?
    ensures LeavesMessages(s, MainStep(s, confirmed, wait))
  {
    if s.main.Freeing? {
      FreeingLeavesMessages(s, confirmed, wait);
    }
  }

  lemma PayloadsLeft(s: System, t: System)
    requires Shaped(s) && PayloadsKept(s) && Shaped(t) && LeavesMessages(s, t)
    ensures PayloadsKept(t)
  {
    forall i | 0 <= i < LRW_QUEUE_LEN && Used(t.q.slots[i]) ensures HoldsMessage(t, i) {
      assert HoldsMessage(s, i);
    }
  }

  lemma PayloadsKeptByProducer(s: System)
    requires Shaped(s) && PayloadsKept(s) && Shaped(ProducerStep(s))
    ensures PayloadsKept(ProducerStep(s))
  {
    var t := ProducerStep(s);
    forall i | 0 <= i < LRW_QUEUE_LEN && Used(t.q.slots[i]) ensures HoldsMessage(t, i) {
      if s.producer.Publishing? && i == s.producer.i {
        assert t.accepted[|s.accepted|] == s.producer.payload;
      } else {
        assert Used(s.q.slots[i]) && HoldsMessage(s, i);
      }
    }
  }

  lemma PayloadsKeptByConfirm(s: System, ack: bool)
    requires Shaped(s) && PayloadsKept(s) && Shaped(Next(s, Confirmation(ack)))
    ensures PayloadsKept(Next(s, Confirmation(ack)))
  {
    PayloadsLeft(s, Next(s, Confirmation(ack)));
  }

  // ----- Power -----------------------------------------------------------------------------------

  /** The original power `p` is never lost: it is the channel's power, or it is saved while full power is on. A forced
      attempt is under way only at full power. */
  ghost predicate PowerKept(s: System, p: int) {
    && (if s.q.txpOverride then s.q.txpPrior == p && s.q.power == MAX_TX_POWER else s.q.power == p)
    && ((s.main.Embedding? || s.main.Sending?) && s.main.forced ==> s.q.power == MAX_TX_POWER)
  }

  lemma PowerKeptBy(s: System, p: int, step: Step)
    requires Shaped(s) && PowerKept(s, p) && Allowed(step)
    ensures PowerKept(Next(s, step), p)
  {
  }

  // ----- The log ---------------------------------------------------------------------------------

  /** A transmission carried an accepted message, with the power it went out at in its power bits. */
  ghost predicate Faithful(s: System, e: LogEntry) {
    && e.id < |s.accepted|
    && SameButPower(e.payload, s.accepted[e.id])
    && e.payload[0] / 4 % 8 == e.power % 8
    && (e.forced ==> e.power == MAX_TX_POWER)
  }

  ghost predicate LogFaithful(s: System)
    requires Shaped(s)
  {
    && (forall k | 0 <= k < |s.log| :: Faithful(s, s.log[k]))
    && (s.main.Sending? ==> Payload(s.q.slots[s.main.i])[0] / 4 % 8 == s.q.power % 8)
  }

  lemma LogFaithfulByEmbedding(s: System, confirmed: bool, wait: bool)
    requires Shaped(s) && PayloadsKept(s) && LogFaithful(s) && s.main.Embedding? && Shaped(MainStep(s, confirmed, wait))
    ensures LogFaithful(MainStep(s, confirmed, wait))
  {
    var t := MainStep(s, confirmed, wait);
    assert HoldsMessage(s, s.main.i);
    EmbeddedPayload(s.q.slots[s.main.i], s.q.power, s.accepted[s.entries[s.main.i].id]);
    forall k | 0 <= k < |t.log| ensures Faithful(t, t.log[k]) {
      assert Faithful(s, s.log[k]);
    }
  }

  lemma LogFaithfulBySending(s: System, p: int, confirmed: bool, wait: bool)
    requires Shaped(s) && PayloadsKept(s) && PowerKept(s, p) && LogFaithful(s) && s.main.Sending?
    requires Shaped(MainStep(s, confirmed, wait))
    ensures LogFaithful(MainStep(s, confirmed, wait))
  {
    var t := MainStep(s, confirmed, wait);
    assert HoldsMessage(s, s.main.i);
    forall k | 0 <= k < |t.log| ensures Faithful(t, t.log[k]) {
      assert k < |s.log| ==> Faithful(s, s.log[k]);
    }
  }

  lemma LogFaithfulByMain(s: System, p: int, confirmed: bool, wait: bool)
    requires Shaped(s) && PayloadsKept(s) && PowerKept(s, p) && LogFaithful(s) && Shaped(MainStep(s, confirmed, wait))
    ensures LogFaithful(MainStep(s, confirmed, wait))
  {
    if s.main.Embedding? {
      LogFaithfulByEmbedding(s, confirmed, wait);
    } else if s.main.Sending? {
      LogFaithfulBySending(s, p, confirmed, wait);
    } else {
      LogLeft(s, MainStep(s, confirmed, wait));
    }
  }

  lemma LogFaithfulByProducer(s: System)
    requires Shaped(s) && LogFaithful(s) && Shaped(ProducerStep(s))
    ensures LogFaithful(ProducerStep(s))
  {
    var t := ProducerStep(s);
    forall k | 0 <= k < |t.log| ensures Faithful(t, t.log[k]) {
      assert Faithful(s, s.log[k]);
    }
  }

  // ----- What became of the accepted messages ----------------------------------------------------

  /** Some slot holds message `id`. */
  ghost predicate InQueue(s: System, id: nat)
    requires Shaped(s)
  {
    exists i :: 0 <= i < LRW_QUEUE_LEN && Used(s.q.slots[i]) && s.entries[i].id == id
  }

  /** Every accepted message is in exactly one slot, or done, or lost. */
  ghost predicate Accounted(s: System)
    requires Shaped(s)
  {
    && (forall i | 0 <= i < LRW_QUEUE_LEN && Used(s.q.slots[i]) ::
          s.entries[i].id < |s.accepted| && s.entries[i].id !in s.done && s.entries[i].id !in s.lost)
    && (forall i, j | 0 <= i < j < LRW_QUEUE_LEN && Used(s.q.slots[i]) && Used(s.q.slots[j]) ::
          s.entries[i].id != s.entries[j].id)
    && (forall id | id in s.done :: id < |s.accepted| && id !in s.lost)
    && (forall id | id in s.lost :: id < |s.accepted|)
    && (forall id | 0 <= id < |s.accepted| :: id in s.done || id in s.lost || InQueue(s, id))
  }

  /** Conservation: what was accepted is what is queued, done and lost. */
  ghost predicate Conserved(s: System) {
    |s.accepted| == Count(s.q.slots) + |s.done| + |s.lost|
  }

  /** The slots of `t` are those of `s` but that slot `i` is freed, and the history says so. */
  ghost predicate FreesSlot(s: System, t: System, i: nat)
    requires Shaped(s)
  {
    && i < LRW_QUEUE_LEN
    && t.q.slots == s.q.slots[i := s.q.slots[i].(kind := NoMsg)]
    && t.entries == s.entries && t.accepted == s.accepted
    && t.done == Freed(s, i).done && t.lost == Freed(s, i).lost
  }

  /** The history and the use of every slot are as before. */
  ghost predicate SameHistory(s: System, t: System)
    requires Shaped(s)
  {
    && |t.q.slots| == |t.entries| == LRW_QUEUE_LEN
    && (forall i | 0 <= i < LRW_QUEUE_LEN ::
          Used(t.q.slots[i]) == Used(s.q.slots[i]) && t.entries[i].id == s.entries[i].id)
    && t.accepted == s.accepted && t.done == s.done && t.lost == s.lost
  }

  lemma ConservedAfterFree(s: System, t: System, i: nat)
    requires Shaped(s) && Accounted(s) && Conserved(s) && FreesSlot(s, t, i)
    ensures Conserved(t)
  {
    CountUpdate(s.q.slots, i, s.q.slots[i].(kind := NoMsg));
    var id := s.entries[i].id;
    if Used(s.q.slots[i]) {
      assert id !in s.done && id !in s.lost;
      if s.entries[i].counted == 0 {
        assert |s.lost + {id}| == |s.lost| + 1;
      } else {
        assert s.done[id := s.entries[i].counted].Keys == s.done.Keys + {id};
      }
    }
  }

  /** Every message but the one in the freed slot is where it was. */
  lemma ServedAfterFree(s: System, t: System, i: nat, id: nat)
    requires Shaped(s) && Accounted(s) && Shaped(t) && FreesSlot(s, t, i) && id < |s.accepted|
    ensures id in t.done || id in t.lost || InQueue(t, id)
  {
    if InQueue(s, id) {
      var j :| 0 <= j < LRW_QUEUE_LEN && Used(s.q.slots[j]) && s.entries[j].id == id;
      assert j != i ==> Used(t.q.slots[j]) && t.entries[j].id == id;
    } else {
      assert id in s.done || id in s.lost;
    }
  }

  lemma AccountedAfterFree(s: System, t: System, i: nat)
    requires Shaped(s) && Accounted(s) && Shaped(t) && FreesSlot(s, t, i)
    ensures Accounted(t)
  {
    forall id | 0 <= id < |t.accepted| ensures id in t.done || id in t.lost || InQueue(t, id) {
      ServedAfterFree(s, t, i, id);
    }
  }

  lemma {:induction false} CountSame(q: seq<Slot>, r: seq<Slot>)
    requires |q| == |r| && forall i | 0 <= i < |q| :: Used(q[i]) == Used(r[i])
    ensures Count(q) == Count(r)
  {
    if q != [] {
      CountSame(q[1..], r[1..]);
    }
  }

  lemma AccountedSame(s: System, t: System)
    requires Shaped(s) && Accounted(s) && Conserved(s) && Shaped(t) && SameHistory(s, t)
    ensures Accounted(t) && Conserved(t)
  {
    CountSame(s.q.slots, t.q.slots);
    forall id | 0 <= id < |t.accepted| ensures id in t.done || id in t.lost || InQueue(t, id) {
      if InQueue(s, id) {
        var j :| 0 <= j < LRW_QUEUE_LEN && Used(s.q.slots[j]) && s.entries[j].id == id;
        assert Used(t.q.slots[j]) && t.entries[j].id == id;
      }
    }
  }

  lemma MainFreesSlot(s: System, confirmed: bool, wait: bool)
    requires Shaped(s) && s.main.Freeing? && s.q.retransLeft <= 1
    ensures FreesSlot(s, MainStep(s, confirmed, wait), s.main.i)
  {
  }

  lemma FreeingSameHistory(s: System, confirmed: bool, wait: bool)
    requires Shaped(s) && s.main.Freeing? && s.q.retransLeft > 1
    ensures SameHistory(s, MainStep(s, confirmed, wait))
  {
  }

  lemma SendingSameHistory(s: System, confirmed: bool, wait: bool)
    requires Shaped(s) && (s.main.Embedding? || s.main.Sending?)
    ensures SameHistory(s, MainStep(s, confirmed, wait))
  {
  }

  lemma MainSameHistory(s: System, confirmed: bool, wait: bool)
    requires Shaped(s) && !(s.main.Freeing? && s.q.retransLeft <= 1)
    ensures SameHistory(s, MainStep(s, confirmed, wait))
  {
    if s.main.Freeing? {
      FreeingSameHistory(s, confirmed, wait);
    } else if s.main.Embedding? || s.main.Sending? {
      SendingSameHistory(s, confirmed, wait);
    }
  }

  lemma AccountedByMain(s: System, confirmed: bool, wait: bool)
    requires Shaped(s) && Accounted(s) && Conserved(s) && Shaped(MainStep(s, confirmed, wait))
    ensures Accounted(MainStep(s, confirmed, wait)) && Conserved(MainStep(s, confirmed, wait))
  {
    if s.main.Freeing? && s.q.retransLeft <= 1 {
      MainFreesSlot(s, confirmed, wait);
      ConservedAfterFree(s, MainStep(s, confirmed, wait), s.main.i);
      AccountedAfterFree(s, MainStep(s, confirmed, wait), s.main.i);
    } else {
      MainSameHistory(s, confirmed, wait);
      AccountedSame(s, MainStep(s, confirmed, wait));
    }
  }

  lemma AccountedByConfirm(s: System, ack: bool)
    requires Shaped(s) && Accounted(s) && Conserved(s) && Shaped(Next(s, Confirmation(ack)))
    ensures Accounted(Next(s, Confirmation(ack))) && Conserved(Next(s, Confirmation(ack)))
  {
    var t := Next(s, Confirmation(ack));
    if s.main == Idle && ack {
      ConservedAfterFree(s, t, s.q.retransIndex);
      AccountedAfterFree(s, t, s.q.retransIndex);
    } else {
      AccountedSame(s, t);
    }
  }

  lemma AccountedByPublishing(s: System)
    requires Shaped(s) && Accounted(s) && Conserved(s) && Shaped(ProducerStep(s)) && s.producer.Publishing?
    ensures Accounted(ProducerStep(s)) && Conserved(ProducerStep(s))
  {
    var t, i := ProducerStep(s), s.producer.i;
    CountUpdate(s.q.slots, i, s.q.slots[i].(kind := s.producer.kind));
    forall id | 0 <= id < |t.accepted| ensures id in t.done || id in t.lost || InQueue(t, id) {
      if id == |s.accepted| {
        assert Used(t.q.slots[i]) && t.entries[i].id == id;
      } else {
        assert id in s.done || id in s.lost || InQueue(s, id);
        if InQueue(s, id) {
          var j :| 0 <= j < LRW_QUEUE_LEN && Used(s.q.slots[j]) && s.entries[j].id == id;
          assert Used(t.q.slots[j]) && t.entries[j].id == id;
        }
      }
    }
  }

  lemma ProducerSameHistory(s: System)
    requires Shaped(s) && !s.producer.Publishing?
    ensures SameHistory(s, ProducerStep(s))
  {
  }

  lemma AccountedByProducer(s: System)
    requires Shaped(s) && Accounted(s) && Conserved(s) && Shaped(ProducerStep(s))
    ensures Accounted(ProducerStep(s)) && Conserved(ProducerStep(s))
  {
    if s.producer.Publishing? {
      AccountedByPublishing(s);
    } else {
      ProducerSameHistory(s);
      AccountedSame(s, ProducerStep(s));
    }
  }

  // ----- Lost messages ---------------------------------------------------------------------------

  /** The attempts let through, told from the firmware's own counter: the three less those left for the message being
      retransmitted, none for those waiting, and one more while the sender is about to count it. */
  ghost predicate CounterTells(s: System)
    requires Shaped(s)
  {
    forall i | 0 <= i < LRW_QUEUE_LEN && Used(s.q.slots[i]) ::
      s.entries[i].counted
      == (if s.q.retransLeft > 0 && i == s.q.retransIndex then RETRANSMISSIONS - s.q.retransLeft else 0)
         + (if s.main == Freeing(i) then 1 else 0)
  }

  lemma CounterTellsByMain(s: System, confirmed: bool, wait: bool)
    requires Shaped(s) && CounterTells(s) && Shaped(MainStep(s, confirmed, wait)) && !s.main.Freeing?
    ensures CounterTells(MainStep(s, confirmed, wait))
  {
  }

  lemma CounterTellsByFreeing(s: System, confirmed: bool, wait: bool)
    requires Shaped(s) && CounterTells(s) && Shaped(MainStep(s, confirmed, wait)) && s.main.Freeing?
    ensures CounterTells(MainStep(s, confirmed, wait))
  {
  }

  lemma CounterTellsByProducer(s: System)
    requires Shaped(s) && CounterTells(s) && Shaped(ProducerStep(s))
    ensures CounterTells(ProducerStep(s))
  {
  }

  /** In every mode and with every acknowledgement. */
  lemma CounterTellsKept(s: System, step: Step)
    requires Shaped(s) && CounterTells(s) && Allowed(step) && Shaped(Next(s, step))
    ensures CounterTells(Next(s, step))
  {
    match step
    case StartSend =>
    case StartEnqueue(_, _, _) =>
    case Main(confirmed, wait) =>
      if s.main.Freeing? {
        CounterTellsByFreeing(s, confirmed, wait);
      } else {
        CounterTellsByMain(s, confirmed, wait);
      }
    case Confirmation(ack) =>
    case Producer => CounterTellsByProducer(s);
  }

  /** An acknowledgement for a slot that is queued although no retransmission is under way, or whose first attempt the
      duty cycle still holds back. */
  predicate DropsUnsent(s: System, step: Step)
    requires |s.q.slots| == LRW_QUEUE_LEN && s.q.retransIndex < LRW_QUEUE_LEN
  {
    && step.Confirmation? && step.ack && s.main == Idle
    && Used(s.q.slots[s.q.retransIndex]) && (s.q.retransLeft == 0 || s.q.retransLeft == RETRANSMISSIONS)
  }

  /** A message none of whose attempts was let through is dropped by exactly such an acknowledgement. */
  lemma LostExactlyByAck(s: System, step: Step)
    requires Shaped(s) && CounterTells(s) && Accounted(s) && Allowed(step)
    ensures s.lost <= Next(s, step).lost
    ensures Next(s, step).lost == s.lost <==> !DropsUnsent(s, step)
    ensures DropsUnsent(s, step) ==> Next(s, step).lost == s.lost + {s.entries[s.q.retransIndex].id}
  {
    if step.Confirmation? && Used(s.q.slots[s.q.retransIndex]) {
      assert s.entries[s.q.retransIndex].id !in s.lost;
    }
  }

  // ----- Messages never tried --------------------------------------------------------------------

  /** A message scheduled for retransmission has gone to the radio, unless its first attempt is under way right now; so
      has one that is about to be freed. */
  ghost predicate Attempted(s: System)
    requires Shaped(s)
  {
    && (s.q.retransLeft > 0 && !s.main.Embedding? && !s.main.Sending? ==> s.entries[s.q.retransIndex].id in s.tried)
    && (s.main.Freeing? ==> s.entries[s.main.i].id in s.tried)
  }

  lemma AttemptedByMain(s: System, confirmed: bool, wait: bool)
    requires Shaped(s) && Attempted(s) && Shaped(MainStep(s, confirmed, wait))
    ensures Attempted(MainStep(s, confirmed, wait))
  {
  }

  lemma AttemptedKept(s: System, step: Step)
    requires Shaped(s) && Attempted(s) && Allowed(step) && Shaped(Next(s, step))
    ensures Attempted(Next(s, step))
  {
    if step.Main? {
      AttemptedByMain(s, step.confirmed, step.wait);
    }
  }

  /** An acknowledgement for a slot that is queued although no retransmission is under way. */
  predicate LateAck(s: System, step: Step)
    requires |s.q.slots| == LRW_QUEUE_LEN && s.q.retransIndex < LRW_QUEUE_LEN
  {
    && step.Confirmation? && step.ack && s.main == Idle
    && Used(s.q.slots[s.q.retransIndex]) && s.q.retransLeft == 0
  }

  /** What leaves the queue has gone to the radio, unless a late acknowledgement takes it. */
  lemma LeavesTried(s: System, step: Step, id: nat)
    requires Shaped(s) && Attempted(s) && Allowed(step) && !LateAck(s, step)
    ensures s.tried <= Next(s, step).tried
    ensures id in Next(s, step).done || id in Next(s, step).lost ==> id in s.done || id in s.lost || id in s.tried
  {
  }

  // ----- Whole runs ------------------------------------------------------------------------------

  ghost predicate AllAllowed(steps: seq<Step>) {
    forall k | 0 <= k < |steps| :: Allowed(steps[k])
  }

  ghost function Run(s: System, steps: seq<Step>): (t: System)
    requires Shaped(s) && AllAllowed(steps)
    ensures Shaped(t)
  {
    if steps == [] then s
    else
      After(Run(s, steps[..|steps| - 1]), steps[|steps| - 1])
  }

  /** Everything that holds at every point of every run; `p` is the channel's own power. */
  ghost predicate Inv(s: System, p: int) {
    && Shaped(s) && PayloadsKept(s) && PowerKept(s, p) && LogFaithful(s)
    && Accounted(s) && Conserved(s) && CounterTells(s) && Attempted(s)
  }

  /** A device that has just started, with channel power `p`. */
  ghost predicate Initial(s: System, p: int) {
    && s.q.Valid() && (forall i | 0 <= i < LRW_QUEUE_LEN :: !Used(s.q.slots[i]))
    && s.q.retransLeft == 0 && !s.q.txpOverride && s.q.power == p
    && s.main == Idle && s.producer == Resting && |s.entries| == LRW_QUEUE_LEN
    && s.accepted == [] && s.tried == {} && s.done == map[] && s.lost == {} && s.log == []
  }

  lemma InitialInv(s: System, p: int)
    requires Initial(s, p)
    ensures Inv(s, p)
  {
    NothingQueued(s.q.slots);
  }

  lemma InvKept(s: System, p: int, step: Step)
    requires Inv(s, p) && Allowed(step)
    ensures Inv(Next(s, step), p)
  {
    ShapedKept(s, step);
    PowerKeptBy(s, p, step);
    CounterTellsKept(s, step);
    AttemptedKept(s, step);
    match step
    case StartSend => InvByStart(s, p, step);
    case StartEnqueue(_, _, _) => InvByStart(s, p, step);
    case Main(confirmed, wait) =>
      PayloadsKeptByMain(s, confirmed, wait);
      LogFaithfulByMain(s, p, confirmed, wait);
      AccountedByMain(s, confirmed, wait);
    case Confirmation(ack) =>
      PayloadsKeptByConfirm(s, ack);
      LogFaithfulByConfirm(s, ack);
      AccountedByConfirm(s, ack);
    case Producer =>
      PayloadsKeptByProducer(s);
      LogFaithfulByProducer(s);
      AccountedByProducer(s);
  }

  lemma InvByStart(s: System, p: int, step: Step)
    requires Inv(s, p) && Allowed(step) && (step.StartSend? || step.StartEnqueue?) && Shaped(Next(s, step))
    ensures var t := Next(s, step); PayloadsKept(t) && LogFaithful(t) && Accounted(t) && Conserved(t)
  {
    var t := Next(s, step);
    PayloadsLeft(s, t);
    AccountedSame(s, t);
    LogLeft(s, t);
  }

  lemma LogLeft(s: System, t: System)
    requires Shaped(s) && LogFaithful(s) && Shaped(t) && t.log == s.log && t.accepted == s.accepted
    requires t.main.Sending? ==> t.main == s.main && t.q == s.q
    ensures LogFaithful(t)
  {
    forall k | 0 <= k < |t.log| ensures Faithful(t, t.log[k]) {
      assert Faithful(s, s.log[k]);
    }
  }

  lemma LogFaithfulByConfirm(s: System, ack: bool)
    requires Shaped(s) && LogFaithful(s) && Shaped(Next(s, Confirmation(ack)))
    ensures LogFaithful(Next(s, Confirmation(ack)))
  {
    if s.main == Idle {
      LogLeft(s, Next(s, Confirmation(ack)));
    }
  }

  /** Safety over every run of sender, producer and confirmations, in every mode and with every answer of the radio. */
  lemma {:induction false} RunInv(s: System, p: int, steps: seq<Step>)
    requires Initial(s, p) && AllAllowed(steps)
    ensures Inv(Run(s, steps), p)
  {
    if steps == [] {
      InitialInv(s, p);
    } else {
      RunInv(s, p, steps[..|steps| - 1]);
      InvKept(Run(s, steps[..|steps| - 1]), p, steps[|steps| - 1]);
    }
  }

  // ----- What the runs promise -------------------------------------------------------------------

  /** In every reachable state: at most three attempts are left, while some are their message is queued and unaltered
      but for its power bits, and every message is accounted for. */
  lemma RetransmissionIsSafe(s: System, p: int, steps: seq<Step>)
    requires Initial(s, p) && AllAllowed(steps)
    ensures var t := Run(s, steps);
            && t.q.retransLeft <= RETRANSMISSIONS
            && (t.q.retransLeft > 0 ==>
                  && Used(t.q.slots[t.q.retransIndex])
                  && t.entries[t.q.retransIndex].id < |t.accepted|
                  && SameButPower(Payload(t.q.slots[t.q.retransIndex]), t.accepted[t.entries[t.q.retransIndex].id]))
            && |t.accepted| == Count(t.q.slots) + |t.done| + |t.lost|
  {
    RunInv(s, p, steps);
    var t := Run(s, steps);
    if t.q.retransLeft > 0 {
      assert HoldsMessage(t, t.q.retransIndex);
    }
  }

  /** Every transmission of every run is an accepted message with the power it went out at in its power bits, and a
      repeated attempt in confirmed mode goes out at full power. */
  lemma TransmissionsAreFaithful(s: System, p: int, steps: seq<Step>, k: nat)
    requires Initial(s, p) && AllAllowed(steps) && k < |Run(s, steps).log|
    ensures Faithful(Run(s, steps), Run(s, steps).log[k])
  {
    RunInv(s, p, steps);
  }

  /** The override of the transmit power is transparent: a confirmation that leaves no attempts leaves the channel at
      its own power, at any point of any run. */
  lemma OverrideIsTransparent(s: System, p: int, steps: seq<Step>, ack: bool)
    requires Initial(s, p) && AllAllowed(steps)
    ensures var t := Run(s, steps);
            && (!t.q.txpOverride ==> t.q.power == p)
            && (t.q.txpOverride ==> t.q.txpPrior == p && t.q.power == MAX_TX_POWER)
            && (t.main == Idle && (ack || t.q.retransLeft == 0) ==>
                  var u := Next(t, Confirmation(ack));
                  u.q.retransLeft == 0 && !u.q.txpOverride && u.q.power == p)
  {
    RunInv(s, p, steps);
  }

  /** No step of the run is an acknowledgement that drops a message unsent. */
  ghost predicate NoDrop(s: System, steps: seq<Step>)
    requires Shaped(s) && AllAllowed(steps)
  {
    steps != [] ==>
      var front := steps[..|steps| - 1];
      NoDrop(s, front) && !DropsUnsent(Run(s, front), steps[|steps| - 1])
  }

  /** No accepted message is dropped before an attempt of it was let through, exactly in the runs without such an
      acknowledgement. */
  lemma {:induction false} NothingLost(s: System, p: int, steps: seq<Step>)
    requires Initial(s, p) && AllAllowed(steps)
    ensures Run(s, steps).lost == {} <==> NoDrop(s, steps)
  {
    if steps != [] {
      var front := steps[..|steps| - 1];
      NothingLost(s, p, front);
      RunInv(s, p, front);
      LostExactlyByAck(Run(s, front), steps[|steps| - 1]);
    }
  }

  /** No acknowledgement of the run is late. */
  ghost predicate NoLateAck(s: System, steps: seq<Step>)
    requires Shaped(s) && AllAllowed(steps)
  {
    steps != [] ==>
      var front := steps[..|steps| - 1];
      NoLateAck(s, front) && !LateAck(Run(s, front), steps[|steps| - 1])
  }

  /** Without late acknowledgements no message leaves the queue before it has gone to the radio. */
  lemma {:induction false} NothingLeavesUntried(s: System, p: int, steps: seq<Step>, id: nat)
    requires Initial(s, p) && AllAllowed(steps) && NoLateAck(s, steps)
    ensures id in Run(s, steps).done || id in Run(s, steps).lost ==> id in Run(s, steps).tried
  {
    if steps != [] {
      var front := steps[..|steps| - 1];
      NothingLeavesUntried(s, p, front, id);
      RunInv(s, p, front);
      LeavesTried(Run(s, front), steps[|steps| - 1], id);
    }
  }

  // ----- Counted attempts ------------------------------------------------------------------------

  /** Attempts a message takes when nothing intervenes. */
  function Target(confirmed: bool): nat {
    if confirmed then RETRANSMISSIONS else 1
  }

  /** The step keeps the mode and brings no acknowledgement. */
  predicate Plain(step: Step, confirmed: bool) {
    match step
    case Main(c, _) => c == confirmed
    case Confirmation(ack) => !ack
    case _ => true
  }

  /** Every message that has left the queue had its counted attempts; the counter is in use in confirmed mode only. */
  ghost predicate Counted(s: System, confirmed: bool)
    requires Shaped(s)
  {
    && s.lost == {} && (!confirmed ==> s.q.retransLeft == 0)
    && (confirmed && (s.main.Embedding? || s.main.Sending? || s.main.Freeing?) ==> s.q.retransLeft > 0)
    && (forall id | id in s.done :: s.done[id] == Target(confirmed))
  }

  lemma CountedByFreeing(s: System, confirmed: bool, wait: bool)
    requires Shaped(s) && CounterTells(s) && Counted(s, confirmed) && Shaped(MainStep(s, confirmed, wait))
    requires s.main.Freeing?
    ensures Counted(MainStep(s, confirmed, wait), confirmed)
  {
  }

  lemma CountedByMain(s: System, confirmed: bool, wait: bool)
    requires Shaped(s) && CounterTells(s) && Counted(s, confirmed) && Shaped(MainStep(s, confirmed, wait))
    ensures Counted(MainStep(s, confirmed, wait), confirmed)
  {
    if s.main.Freeing? {
      CountedByFreeing(s, confirmed, wait);
    }
  }

  lemma CountedKept(s: System, confirmed: bool, step: Step)
    requires Shaped(s) && CounterTells(s) && Counted(s, confirmed) && Allowed(step) && Plain(step, confirmed)
    requires Shaped(Next(s, step))
    ensures Counted(Next(s, step), confirmed)
  {
    if step.Main? {
      CountedByMain(s, step.confirmed, step.wait);
    }
  }

  /** With a fixed mode and no acknowledgement, every message that leaves the queue has had exactly three counted
      attempts if confirmed and exactly one if not, however long the duty cycle held it back and whatever else was
      queued meanwhile. */
  lemma {:induction false} ExactlyCounted(s: System, p: int, steps: seq<Step>, confirmed: bool)
    requires Initial(s, p) && AllAllowed(steps)
    requires forall k | 0 <= k < |steps| :: Plain(steps[k], confirmed)
    ensures Counted(Run(s, steps), confirmed)
  {
    if steps != [] {
      var front := steps[..|steps| - 1];
      ExactlyCounted(s, p, front, confirmed);
      RunInv(s, p, front);
      ShapedKept(Run(s, front), steps[|steps| - 1]);
      CountedKept(Run(s, front), confirmed, steps[|steps| - 1]);
    }
  }
}
