/** The LoRa send queue: `enqueueToSend`, `LRW_Send`, `McpsConfirm` and `LRW_HasQueue`.

    The radio stack is the channel's transmit power and, for each transmission, whether the duty cycle held it back. */
module SendQueue {
  import opened Bits
  import opened UplinkPayload

  const LRW_QUEUE_LEN := 3
  const MSG_SIZE := 12
  const RETRANSMISSIONS := 3

  /** `EU868_MAX_TX_POWER`: power indices count down from the strongest. */
  const MAX_TX_POWER := 0

  /** One element of the queue; it is free when it holds no message type. */
  datatype Slot = Slot(kind: MsgType, len: nat, msg: seq<byte>)

  function Used(s: Slot): bool {
    s.kind != NoMsg
  }

  function Payload(s: Slot): seq<byte>
    requires s.len <= |s.msg|
  {
    s.msg[..s.len]
  }

  datatype Queue = Queue(
    slots: seq<Slot>,
    retransLeft: nat,
    retransIndex: nat,
    txpPrior: int,
    txpOverride: bool,
    power: int)
  {
    /** The shape of the C structure; a slot that was never used has length zero. */
    ghost predicate Valid() {
      && |slots| == LRW_QUEUE_LEN
      && (forall i | 0 <= i < LRW_QUEUE_LEN :: |slots[i].msg| == MSG_SIZE && slots[i].len <= MSG_SIZE)
      && (forall i | 0 <= i < LRW_QUEUE_LEN && Used(slots[i]) :: 1 <= slots[i].len)
      && retransIndex < LRW_QUEUE_LEN
    }

    /** What every operation keeps: at most three attempts are left, and while some are, their message is queued. */
    ghost predicate Consistent() {
      && Valid()
      && retransLeft <= RETRANSMISSIONS
      && (retransLeft > 0 ==> Used(slots[retransIndex]))
    }
  }

  /** The first slot from `i` on whose use is `used`, or the length. */
  function First(q: seq<Slot>, used: bool, i: nat): (r: nat)
    requires i <= |q|
    ensures i <= r <= |q|
    ensures forall j | i <= j < r :: Used(q[j]) != used
    ensures r < |q| ==> Used(q[r]) == used
    decreases |q| - i
  {
    if i == |q| || Used(q[i]) == used then i else First(q, used, i + 1)
  }

  /** A message put into the first free slot; without one, or unjoined, or without a type, it is dropped. */
  function Enqueue(q: Queue, joined: bool, kind: MsgType, payload: seq<byte>): Queue
    requires q.Valid() && |payload| <= MSG_SIZE
  {
    var i := First(q.slots, false, 0);
    if !joined || i == LRW_QUEUE_LEN || kind == NoMsg then q
    else q.(slots := q.slots[i := Slot(kind, |payload|, Overwrite(q.slots[i].msg, 0, payload))])
  }

  /** One transmission: its slot, payload and power, and whether it repeats an earlier attempt. */
  datatype Transmission = Silent | Sent(slot: nat, payload: seq<byte>, power: int, repeated: bool)

  function WithPower(s: Slot, power: int): Slot
    requires |s.msg| == MSG_SIZE
  {
    s.(msg := s.msg[0 := EmbedPower(s.msg[0], power)])
  }

  /** The message a send call works on: the one being retransmitted, or the first queued, or none. */
  function Pick(q: Queue): nat
    requires q.Valid()
  {
    if q.retransLeft > 0 then q.retransIndex else First(q.slots, true, 0)
  }

  /** A repeated attempt in confirmed mode at less than full power only raises the power. */
  predicate OnlyRaisesPower(q: Queue, confirmed: bool) {
    q.retransLeft > 0 && confirmed && q.power != MAX_TX_POWER
  }

  /** The power override at a repeated attempt; the power of before is remembered once. */
  function Raise(q: Queue): Queue {
    q.(txpPrior := if q.txpOverride then q.txpPrior else q.power, txpOverride := true, power := MAX_TX_POWER)
  }

  /** The retransmission state when the message in slot `i` is about to go to the radio. */
  function Schedule(q: Queue, confirmed: bool, i: nat): Queue {
    if q.retransLeft > 0 && confirmed then Raise(q)
    else if confirmed then q.(retransLeft := RETRANSMISSIONS, retransIndex := i)
    else q
  }

  /** The transmit power embedded into the message of slot `i`. */
  function Embed(q: Queue, i: nat): Queue
    requires |q.slots| == LRW_QUEUE_LEN && i < LRW_QUEUE_LEN && |q.slots[i].msg| == MSG_SIZE
  {
    q.(slots := q.slots[i := WithPower(q.slots[i], q.power)])
  }

  /** The queue when the message in slot `i` goes to the radio. */
  function Attempt(q: Queue, confirmed: bool, i: nat): (r: Queue)
    requires q.Valid() && i < LRW_QUEUE_LEN
    ensures |r.slots| == LRW_QUEUE_LEN && r.slots[i].len <= |r.slots[i].msg|
  {
    Embed(Schedule(q, confirmed, i), i)
  }

  /** The queue when the radio has taken the message of slot `i`. */
  function Taken(q: Queue, i: nat): Queue
    requires i < |q.slots|
  {
    var left := if q.retransLeft > 0 then q.retransLeft - 1 else 0;
    q.(retransLeft := left, slots := if left == 0 then q.slots[i := q.slots[i].(kind := NoMsg)] else q.slots)
  }

  /** A whole call of `LRW_Send`; `wait` is whether the duty cycle holds the transmission back. */
  function Send(q: Queue, confirmed: bool, wait: bool): Queue
    requires q.Valid()
  {
    var i := Pick(q);
    if i >= LRW_QUEUE_LEN then q
    else if OnlyRaisesPower(q, confirmed) then Raise(q)
    else
      var r := Attempt(q, confirmed, i);
      if wait then r else Taken(r, i)
  }

  function SentBy(q: Queue, confirmed: bool): Transmission
    requires q.Valid()
  {
    var i := Pick(q);
    if i >= LRW_QUEUE_LEN || OnlyRaisesPower(q, confirmed) then Silent
    else
      Sent(i, Payload(Attempt(q, confirmed, i).slots[i]), q.power, q.retransLeft > 0)
  }

  /** The confirmation of a transmission: an acknowledgement ends the retransmissions and frees their slot. */
  function Confirm(q: Queue, ack: bool): Queue
    requires q.Valid()
  {
    var r := if ack then
               q.(retransLeft := 0, slots := q.slots[q.retransIndex := q.slots[q.retransIndex].(kind := NoMsg)])
             else q;
    if r.retransLeft == 0 && r.txpOverride then r.(txpOverride := false, power := r.txpPrior) else r
  }

  // ----- Occupancy -------------------------------------------------------------------------------

  /** Number of queued messages. */
  function Count(q: seq<Slot>): nat {
    if q == [] then 0 else (if Used(q[0]) then 1 else 0) + Count(q[1..])
  }

  lemma {:induction false} CountUpdate(q: seq<Slot>, i: nat, x: Slot)
    requires i < |q|
    ensures Count(q[i := x]) == Count(q) - (if Used(q[i]) then 1 else 0) + (if Used(x) then 1 else 0)
  {
    if i == 0 {
      assert q[i := x][1..] == q[1..];
    } else {
      assert q[i := x][1..] == q[1..][i - 1 := x];
      CountUpdate(q[1..], i - 1, x);
    }
  }

  lemma {:induction false} NothingQueued(q: seq<Slot>)
    requires forall i | 0 <= i < |q| :: !Used(q[i])
    ensures Count(q) == 0
  {
    if q != [] {
      NothingQueued(q[1..]);
    }
  }

  /** A message is queued exactly when the device is joined, the message has a type and some slot is free. It then is in
      the first free slot, in front of what the buffer held; nothing else changes. */
  lemma QueuedIff(q: Queue, joined: bool, kind: MsgType, payload: seq<byte>)
    requires q.Valid() && 1 <= |payload| <= MSG_SIZE
    ensures var r := Enqueue(q, joined, kind, payload);
            if joined && kind != NoMsg && exists i :: 0 <= i < LRW_QUEUE_LEN && !Used(q.slots[i]) then
              exists i ::
                && 0 <= i < LRW_QUEUE_LEN && !Used(q.slots[i]) && (forall j | 0 <= j < i :: Used(q.slots[j]))
                && r == q.(slots := q.slots[i := r.slots[i]])
                && r.slots[i].kind == kind && Payload(r.slots[i]) == payload
                && r.slots[i].msg[|payload|..] == q.slots[i].msg[|payload|..]
            else r == q
  {
    var r, i := Enqueue(q, joined, kind, payload), First(q.slots, false, 0);
    if joined && kind != NoMsg && i < LRW_QUEUE_LEN {
      assert r == q.(slots := q.slots[i := r.slots[i]]);
      assert Payload(r.slots[i]) == payload;
      assert r.slots[i].msg[|payload|..] == q.slots[i].msg[|payload|..];
    }
  }

  // ----- What goes to the radio ------------------------------------------------------------------

  /** Embedding the power changes the message in its power bits alone. */
  lemma EmbeddedPayload(slot: Slot, power: int, original: seq<byte>)
    requires |slot.msg| == MSG_SIZE && 1 <= slot.len <= MSG_SIZE && SameButPower(Payload(slot), original)
    ensures SameButPower(Payload(WithPower(slot, power)), original)
    ensures Payload(WithPower(slot, power))[0] / 4 % 8 == power % 8
  {
    EmbedKeepsRest(Payload(slot), original, power);
    assert Payload(WithPower(slot, power)) == Payload(slot)[0 := EmbedPower(slot.msg[0], power)];
  }

  /** The message that a send call is about: the one being retransmitted, or else the first queued. */
  ghost predicate HasTurn(q: Queue, i: nat)
    requires q.Valid()
  {
    && i < LRW_QUEUE_LEN && Used(q.slots[i])
    && if q.retransLeft > 0 then i == q.retransIndex else forall j | 0 <= j < i :: !Used(q.slots[j])
  }

  /** What a transmission carries: the queued message with the channel's power in bits 2 to 4 of its first byte, and
      otherwise as queued. A repeated confirmed attempt goes out at full power, index zero. */
  ghost predicate CarriesMessage(q: Queue, confirmed: bool, tx: Transmission)
    requires q.Valid() && tx.Sent?
  {
    && HasTurn(q, tx.slot)
    && tx.power == q.power
    && SameButPower(tx.payload, Payload(q.slots[tx.slot]))
    && tx.payload[0] / 4 % 8 == tx.power % 8
    && (tx.repeated <==> q.retransLeft > 0)
    && (tx.repeated && confirmed ==> tx.power == 0)
  }

  /** A call is silent exactly when nothing is queued, or when it raises the power for a repeated confirmed attempt; any
      other call sends the message whose turn it is, with the power embedded before it goes out. */
  lemma SentCarriesMessage(q: Queue, confirmed: bool)
    requires q.Consistent()
    ensures var tx := SentBy(q, confirmed);
            && (tx.Silent? <==> (forall i | 0 <= i < LRW_QUEUE_LEN :: !Used(q.slots[i]))
                                || (q.retransLeft > 0 && confirmed && q.power != 0))
            && (tx.Sent? ==> CarriesMessage(q, confirmed, tx))
  {
    var i := Pick(q);
    if i < LRW_QUEUE_LEN {
      EmbeddedPayload(q.slots[i], q.power, Payload(q.slots[i]));
    }
  }

  // ----- The implementation ----------------------------------------------------------------------

  class Lrw {
    const queue: array<Slot>
    var retransLeft: nat
    var retransIndex: nat
    var txpPrior: int
    var txpOverride: bool
    var power: int

    ghost function State(): Queue
      reads this, queue
    {
      Queue(queue[..], retransLeft, retransIndex, txpPrior, txpOverride, power)
    }

    constructor (power: int)
      ensures State().Consistent() && fresh(queue) && queue.Length == 3
      ensures retransLeft == 0 && !txpOverride && this.power == power
      ensures forall i | 0 <= i < LRW_QUEUE_LEN :: !Used(queue[i])
    {
      queue := new Slot[LRW_QUEUE_LEN](_ => Slot(NoMsg, 0, seq(MSG_SIZE, _ => 0)));
      retransLeft, retransIndex, txpPrior, txpOverride := 0, 0, 0, false;
      this.power := power;
    }

    method LRW_HasQueue() returns (b: bool)
      requires State().Valid()
      ensures b <==> exists i | 0 <= i < LRW_QUEUE_LEN :: Used(queue[i])
    {
      for i := 0 to LRW_QUEUE_LEN
        invariant forall j | 0 <= j < i :: !Used(queue[j])
      {
        if Used(queue[i]) {
          return true;
        }
      }
      b := false;
    }

    /** Scan for a slot, as both the producer and the sender do. */
    method Scan(used: bool) returns (i: nat)
      requires State().Valid()
      ensures i == First(queue[..], used, 0)
    {
      i := 0;
      while i < LRW_QUEUE_LEN && Used(queue[i]) != used
        invariant i <= LRW_QUEUE_LEN && First(queue[..], used, i) == First(queue[..], used, 0)
      {
        i := i + 1;
      }
    }

    /** Queue a message, composed from the present readings. */
    method enqueueToSend(kind: MsgType, joined: bool, r: Reading, gesture: byte, count: byte)
      requires State().Valid()
      modifies queue
      ensures State() == if kind == NoMsg then old(State())
                         else Enqueue(old(State()), joined, kind, Compose(kind, r, gesture, count))
    {
      if !joined {
        return;
      }
      var i := Scan(false);
      if i >= LRW_QUEUE_LEN {
        return;
      }
      if kind == NoMsg {
        return;
      }
      var payload := Compose(kind, r, gesture, count);
      queue[i] := queue[i].(msg := Overwrite(queue[i].msg, 0, payload), len := |payload|);
      queue[i] := queue[i].(kind := kind);
      assert queue[..] == old(queue[..])[i := Slot(kind, |payload|, Overwrite(old(queue[..])[i].msg, 0, payload))];
    }

    /** Send the message being retransmitted, or the next one queued. `wait` is the radio's answer. */
    method LRW_Send(confirmedMsgs: bool, wait: bool) returns (tx: Transmission)
      requires State().Valid()
      modifies this, queue
      ensures State() == Send(old(State()), confirmedMsgs, wait)
      ensures tx == SentBy(old(State()), confirmedMsgs)
      ensures old(State()).Consistent() && tx.Sent? ==> CarriesMessage(old(State()), confirmedMsgs, tx)
    {
      if State().Consistent() {
        SentCarriesMessage(State(), confirmedMsgs);
      }
      // pick a queued message, if there is any, or the ongoing one instead
      var i := Scan(true);
      i := if retransLeft > 0 then retransIndex else i;
      if i >= LRW_QUEUE_LEN {
        return Silent;
      }
      var repeated := retransLeft > 0;

      // a repeated attempt of a confirmed message goes out at full power
      if retransLeft > 0 && confirmedMsgs {
        var present := power;
        if !txpOverride {
          txpOverride := true;
          txpPrior := present;
        }
        if present != MAX_TX_POWER {
          power := MAX_TX_POWER;
          return Silent;
        }
      }

      // confirmed messages schedule their retransmissions
      if retransLeft == 0 && confirmedMsgs {
        retransLeft := RETRANSMISSIONS;
        retransIndex := i;
      }
      queue[i] := WithPower(queue[i], power);
      tx := Sent(i, queue[i].msg[..queue[i].len], power, repeated);
      assert queue[..] == old(queue[..])[i := WithPower(old(queue[..])[i], power)];
      assert State() == Attempt(old(State()), confirmedMsgs, i);
      if wait {
        return;
      }
      label taken:
      if retransLeft > 0 {
        retransLeft := retransLeft - 1;
      }
      if retransLeft == 0 {
        queue[i] := queue[i].(kind := NoMsg);
        assert queue[..] == old@taken(queue[..])[i := old@taken(queue[..])[i].(kind := NoMsg)];
      }
      assert State() == Taken(old@taken(State()), i);
    }

    /** The stack's confirmation of a transmission. An acknowledgement ends the retransmissions and frees their slot and
        no other. When no attempts are left then, a power override ends with the power of before it. */
    method McpsConfirm(ackReceived: bool)
      requires State().Valid()
      modifies this, queue
      ensures State() == Confirm(old(State()), ackReceived)
      ensures retransLeft == (if ackReceived then 0 else old(retransLeft)) && retransIndex == old(retransIndex)
      ensures forall i | 0 <= i < LRW_QUEUE_LEN ::
                queue[i] == if ackReceived && i == retransIndex then old(queue[i]).(kind := NoMsg) else old(queue[i])
      ensures txpOverride == (old(txpOverride) && retransLeft > 0)
      ensures power == if old(txpOverride) && !txpOverride then old(txpPrior) else old(power)
    {
      if ackReceived {
        retransLeft := 0;
        queue[retransIndex] := queue[retransIndex].(kind := NoMsg);
        assert queue[..] == old(queue[..])[retransIndex := old(queue[..])[retransIndex].(kind := NoMsg)];
      }
      if retransLeft == 0 && txpOverride {
        txpOverride := false;
        power := txpPrior;
      }
    }
  }
}
