/** The wake-up timer shared by three due times: `PrepareWakeup`, `HW_RTCWUTSet` and the timer's callback.

    Times are seconds of the clock; a due time of zero means "none". */
module WakeUp {
  datatype Reason = None | SchedMsg | DutyCycle | BsecSample

  datatype Timer =
    | Off
    | Armed(counter: nat, seventeenBits: bool)

  datatype Dues = Dues(dutycycle: nat, schedmsg: nat, bsec: nat)

  function Due(d: Dues, r: Reason): nat {
    match r
    case None => 0
    case DutyCycle => d.dutycycle
    case SchedMsg => d.schedmsg
    case BsecSample => d.bsec
  }

  /** The earliest due time, or zero without any. */
  function Earliest(d: Dues): nat {
    var a := d.dutycycle;
    var b := if d.schedmsg != 0 && (a == 0 || d.schedmsg < a) then d.schedmsg else a;
    if d.bsec != 0 && (b == 0 || d.bsec < b) then d.bsec else b
  }

  /** What "earliest" means. */
  lemma EarliestIsLeast(d: Dues)
    ensures Earliest(d) == 0 <==> forall r :: Due(d, r) == 0
    ensures forall r | Due(d, r) != 0 :: Earliest(d) <= Due(d, r)
    ensures Earliest(d) != 0 ==> exists r :: Due(d, r) == Earliest(d)
  {
    assert Due(d, DutyCycle) == d.dutycycle && Due(d, SchedMsg) == d.schedmsg && Due(d, BsecSample) == d.bsec;
  }

  /** The seconds until an armed timer fires: the counter register has 16 bits, and the 17-bit clock adds 65536. */
  function Period(t: Timer): nat
    requires t.Armed?
  {
    t.counter % 0x1_0000 + (if t.seventeenBits then 0x1_0000 else 0) + 1
  }

  /** `HW_RTCWUTSet` */
  function TimerFor(seconds: nat): Timer {
    var s := if seconds == 0 then 1 else seconds;
    Armed(s - 1, s - 1 > 0xFFFF)
  }

  /** The hardware waits the seconds asked for, at least one, exactly up to 131072 of them; beyond that it fires
      early. */
  lemma PeriodIsExact(seconds: nat)
    ensures seconds <= 0x2_0000 <==> Period(TimerFor(seconds)) == if seconds == 0 then 1 else seconds
    ensures seconds > 0x2_0000 ==> 1 <= Period(TimerFor(seconds)) < seconds
  {
  }

  /** The timer and its reason agree with the due times as of time `now`: off without any, otherwise armed for the
      earliest, which has not passed and which the reason names. */
  ghost predicate Agrees(d: Dues, reason: Reason, timer: Timer, now: nat) {
    var due := Earliest(d);
    if due == 0 then timer == Off && reason == None
    else
      && due >= now && timer == TimerFor(due - now)
      && reason != None && Due(d, reason) == due
  }

  /** While they agree, the timer next fires at the least due time, or a second after it was set when that was due at
      once, and the reason is one that is due then; unless that is more than 131072 seconds ahead. */
  lemma FiresAtEarliest(d: Dues, reason: Reason, timer: Timer, setAt: nat)
    requires Agrees(d, reason, timer, setAt)
    ensures timer.Armed? <==> exists r :: Due(d, r) != 0
    ensures timer.Armed? ==>
              var due := Due(d, reason);
              && (forall r | Due(d, r) != 0 :: due <= Due(d, r)) && due >= setAt
              && (due - setAt <= 131072 ==> setAt + Period(timer) == if due == setAt then setAt + 1 else due)
  {
    EarliestIsLeast(d);
    if Earliest(d) != 0 {
      PeriodIsExact(Earliest(d) - setAt);
    }
  }

  /** A due time that has passed becomes due now. */
  function Overdue(due: nat, now: nat): nat {
    if due != 0 && due < now then now else due
  }

  function Requested(d: Dues, r: Reason, duration: nat, now: nat): Dues {
    var due := if duration != 0 then now + duration else 0;
    match r
    case None => Dues(0, 0, 0)
    case DutyCycle => d.(dutycycle := due)
    case SchedMsg => d.(schedmsg := due)
    case BsecSample => d.(bsec := due)
  }

  function Refreshed(d: Dues, now: nat): Dues {
    Dues(Overdue(d.dutycycle, now), Overdue(d.schedmsg, now), Overdue(d.bsec, now))
  }

  /** The due times after a callback, and whether a scheduled message was asked for. The clock reads `now` in the
      callback itself and later times in the calls it makes. */
  function Fired(d: Dues, now: nat, later: (nat, nat, nat), sendInterval: nat): (Dues, bool) {
    var d1 := if d.dutycycle != 0 && d.dutycycle <= now then
                Refreshed(Requested(d, DutyCycle, 0, later.0), later.0) else d;
    var queued := d1.schedmsg != 0 && d1.schedmsg <= now;
    var d2 := if queued then Refreshed(Requested(d1, SchedMsg, sendInterval, later.1), later.1) else d1;
    var d3 := if d2.bsec != 0 && d2.bsec <= now then
                Refreshed(Requested(d2, BsecSample, 0, later.2), later.2) else d2;
    (d3, queued)
  }

  class WakeUpHandler {
    var reason: Reason
    var schedmsgDue: nat
    var dutycycleDue: nat
    var bsecDue: nat
    var timer: Timer

    /** When the timer was last set. */
    ghost var setAt: nat

    constructor ()
      ensures State() == Dues(0, 0, 0) && Valid() && setAt == 0
    {
      reason, schedmsgDue, dutycycleDue, bsecDue, timer, setAt := None, 0, 0, 0, Off, 0;
    }

    ghost function State(): Dues
      reads this
    {
      Dues(dutycycleDue, schedmsgDue, bsecDue)
    }

    /** What every call keeps: the timer is off exactly without due times, and else armed for the earliest. */
    ghost predicate Valid()
      reads this
    {
      Agrees(State(), reason, timer, setAt)
    }

    /** Set or clear one due time, counted from the present, or clear all, and re-arm the timer for the earliest. The
        others stay, or become due now when they are overdue. The clock reads `now`. */
    method PrepareWakeup(r: Reason, duration: nat, now: nat)
      modifies this
      ensures State() == Refreshed(Requested(old(State()), r, duration, now), now)
      ensures r != None ==> Due(State(), r) == if duration == 0 then 0 else now + duration
      ensures r != None ==> forall q | q != r ::
                Due(State(), q) == var due := Due(old(State()), q); if 0 < due < now then now else due
      ensures r == None ==> forall q :: Due(State(), q) == 0
      ensures Valid() && setAt == now
    {
      match r {
        case None => dutycycleDue, schedmsgDue, bsecDue := 0, 0, 0;
        case DutyCycle => dutycycleDue := if duration != 0 then now + duration else 0;
        case SchedMsg => schedmsgDue := if duration != 0 then now + duration else 0;
        case BsecSample => bsecDue := if duration != 0 then now + duration else 0;
      }
      if dutycycleDue != 0 && dutycycleDue < now { dutycycleDue := now; }
      if schedmsgDue != 0 && schedmsgDue < now { schedmsgDue := now; }
      if bsecDue != 0 && bsecDue < now { bsecDue := now; }
      ConcludeTimer(now);
    }

    /** The earliest due time gives the reason and the timer. */
    method ConcludeTimer(now: nat)
      requires dutycycleDue == 0 || dutycycleDue >= now
      requires schedmsgDue == 0 || schedmsgDue >= now
      requires bsecDue == 0 || bsecDue >= now
      modifies this`reason, this`timer, this`setAt
      ensures Valid() && setAt == now
    {
      var due := 0;
      setAt := now;
      reason := None;
      if dutycycleDue != 0 {
        due := dutycycleDue;
        reason := DutyCycle;
      }
      if schedmsgDue != 0 && (due == 0 || schedmsgDue < due) {
        due := schedmsgDue;
        reason := SchedMsg;
      }
      if bsecDue != 0 && (due == 0 || bsecDue < due) {
        due := bsecDue;
        reason := BsecSample;
      }
      if due != 0 {
        HW_RTCWUTSet(due - now);
      } else {
        timer := Off;
      }
    }

    method HW_RTCWUTSet(seconds: nat)
      modifies this`timer
      ensures timer == TimerFor(seconds)
    {
      var s := if seconds != 0 then seconds else 1;
      timer := Armed(s - 1, s - 1 > 0xFFFF);
    }

    /** The wake-up callback: handle what has expired. `queued` is whether it asks for a scheduled message. */
    method WakeUpTimerEvent(now: nat, later: (nat, nat, nat), sendInterval: nat) returns (queued: bool)
      requires Valid() && setAt <= now <= later.0 <= later.1 <= later.2
      modifies this
      ensures (State(), queued) == Fired(old(State()), now, later, sendInterval)
      ensures Valid() && old(setAt) <= setAt <= later.2
    {
      queued := false;
      if dutycycleDue != 0 && dutycycleDue <= now {
        PrepareWakeup(DutyCycle, 0, later.0);
      }
      if schedmsgDue != 0 && schedmsgDue <= now {
        PrepareWakeup(SchedMsg, sendInterval, later.1);
        queued := true;
      }
      if bsecDue != 0 && bsecDue <= now {
        PrepareWakeup(BsecSample, 0, later.2);
      }
    }
  }

  // ----- Nothing due is dropped ------------------------------------------------------------------

  predicate Expired(due: nat, now: nat) {
    0 < due <= now
  }

  /** A callback takes care of the due times that have expired. One of them is left for a second wake-up only when the
      clock moves on inside the callback, and it is left armed then. */
  lemma CallbackHandlesExpired(d: Dues, now: nat, later: (nat, nat, nat), sendInterval: nat)
    requires 0 < now <= later.0 <= later.1 <= later.2
    ensures var (e, queued) := Fired(d, now, later, sendInterval);
            var moved := Expired(d.dutycycle, now) && later.0 > now;
            && (Expired(d.dutycycle, now) ==> e.dutycycle == 0)
            && (queued <==> Expired(d.schedmsg, now) && !moved)
            && (queued && sendInterval == 0 ==> e.schedmsg == 0)
            && (queued && sendInterval != 0 ==>
                  var due := later.1 + sendInterval;
                  e.schedmsg == if Expired(d.bsec, now) && e.bsec == 0 && due < later.2 then later.2 else due)
            && (Expired(d.schedmsg, now) && !queued ==> e.schedmsg == later.0)
            && (Expired(d.bsec, now) ==> (e.bsec == 0 <==> !moved && !(queued && later.1 > now)))
            && (Expired(d.bsec, now) && e.bsec != 0 ==> now < e.bsec <= later.1)
  {
  }

  /** One thing that happens to the due times, with the clock readings it makes. */
  datatype Event =
    | Request(r: Reason, duration: nat, now: nat)
    | Fire(now: nat, later: (nat, nat, nat), sendInterval: nat)

  function After(d: Dues, e: Event): Dues {
    match e
    case Request(r, duration, now) => Refreshed(Requested(d, r, duration, now), now)
    case Fire(now, later, sendInterval) => Fired(d, now, later, sendInterval).0
  }

  function AfterAll(d: Dues, es: seq<Event>): Dues
    decreases |es|
  {
    if es == [] then d else AfterAll(After(d, es[0]), es[1..])
  }

  /** The clock's last reading in an event. */
  function Clock(e: Event): nat {
    match e
    case Request(_, _, now) => now
    case Fire(_, later, _) => later.2
  }

  /** The readings of the run, from time `t` on, never go back. */
  ghost predicate Monotone(es: seq<Event>, t: nat)
    decreases |es|
  {
    es != [] ==>
      && (match es[0]
          case Request(_, _, now) => t <= now
          case Fire(now, later, _) => 0 < t <= now <= later.0 <= later.1 <= later.2)
      && Monotone(es[1..], Clock(es[0]))
  }

  /** The event sets, clears or handles the due time of `r` on purpose. */
  predicate Concerns(d: Dues, e: Event, r: Reason) {
    match e
    case Request(q, _, _) => q == None || q == r
    case Fire(now, later, sendInterval) =>
      match r
      case None => true
      case DutyCycle => Expired(d.dutycycle, now)
      case SchedMsg => Fired(d, now, later, sendInterval).1
      case BsecSample => Expired(d.bsec, now) && Due(After(d, e), r) == 0
  }

  lemma EventKeepsDue(d: Dues, e: Event, r: Reason, t: nat)
    requires Due(d, r) != 0 && Monotone([e], t) && !Concerns(d, e, r)
    ensures Due(d, r) <= Due(After(d, e), r)
    ensures Due(After(d, e), r) <= Due(d, r) || Due(After(d, e), r) <= Clock(e)
  {
  }

  ghost predicate NoneConcern(d: Dues, es: seq<Event>, r: Reason)
    decreases |es|
  {
    es != [] ==> !Concerns(d, es[0], r) && NoneConcern(After(d, es[0]), es[1..], r)
  }

  function LastClock(es: seq<Event>, t: nat): nat
    decreases |es|
  {
    if es == [] then t else LastClock(es[1..], Clock(es[0]))
  }

  /** Over any run, a due time that is not handled, cleared or set anew stays: it moves only when it is overdue, and
      then to a time not after the last clock reading. */
  lemma {:induction false} NoDueIsDropped(d: Dues, es: seq<Event>, r: Reason, t: nat)
    requires Due(d, r) != 0 && Monotone(es, t) && NoneConcern(d, es, r)
    ensures var e := AfterAll(d, es);
            && Due(d, r) <= Due(e, r)
            && (Due(e, r) <= Due(d, r) || Due(e, r) <= LastClock(es, t))
    decreases |es|
  {
    if es != [] {
      assert [es[0]][1..] == [];
      assert Monotone([es[0]], t);
      EventKeepsDue(d, es[0], r, t);
      NoDueIsDropped(After(d, es[0]), es[1..], r, Clock(es[0]));
      ClockGoesOn(es[1..], Clock(es[0]));
    }
  }

  lemma {:induction false} ClockGoesOn(es: seq<Event>, t: nat)
    requires Monotone(es, t)
    ensures t <= LastClock(es, t)
    decreases |es|
  {
    if es != [] {
      ClockGoesOn(es[1..], Clock(es[0]));
    }
  }
}
