/** The gesture recognizer of the button: `ButtonISR` with three gestures, and the deferred single press that it
    schedules. */
module Button {
  import opened Bits
  import opened Scheduler

  /** The job of a deferred single press in the scheduler table; every other task has another one. */
  const BUTTON_JOB := 1
  const DEBOUNCE_MS := 100
  const SHORT_MS := 1500
  const LONG_MIN_MS := 2001
  const LONG_MAX_MS := 8000
  const SINGLE_PRESS_TICKS := 15

  /** `buttonPendingSinglePress`: null, or a slot of the scheduler table. */
  datatype TaskRef = Null | At(slot: nat)

  /** The static variables of the interrupt handler; an edge is up when the button goes down. */
  datatype State = State(lastFall: uint32, lastRise: uint32, lastUp: bool, pending: TaskRef)

  datatype Gesture = NoGesture | SinglePress | DoublePress | LongPress

  /** Milliseconds between two time stamps, which wrap around. */
  function Since(now: uint32, earlier: uint32): uint32 {
    (now - earlier) % 0x1_0000_0000
  }

  predicate Debounced(b: State, up: bool, now: uint32) {
    up == b.lastUp || Since(now, b.lastRise) <= DEBOUNCE_MS || Since(now, b.lastFall) <= DEBOUNCE_MS
  }

  /** What one edge does to the recognizer and to the scheduler table, and the gesture it reports. */
  datatype Outcome = Outcome(b: State, ts: seq<Task>, gesture: Gesture)

  function Edge(b: State, ts: seq<Task>, ticks: nat, up: bool, now: uint32): Outcome
    requires b.pending.At? ==> b.pending.slot < |ts|
  {
    if Debounced(b, up, now) then Outcome(b.(lastUp := up), ts, NoGesture)
    else if up then Rise(b, ts, now)
    else Fall(b, ts, ticks, now)
  }

  /** A second press cancels the deferred single press. */
  function Rise(b: State, ts: seq<Task>, now: uint32): Outcome
    requires b.pending.At? ==> b.pending.slot < |ts|
  {
    var c := b.(lastRise := now, lastUp := true);
    Outcome(c, if b.pending.At? then ts[b.pending.slot := Task(0, 0)] else ts, NoGesture)
  }

  function Fall(b: State, ts: seq<Task>, ticks: nat, now: uint32): Outcome {
    var c := b.(lastFall := now, lastUp := false);
    var hold := Since(now, b.lastRise);
    if b.pending == Null && hold <= SHORT_MS then
      var slot := FreeSlot(ts, ticks, 0);
      Outcome(c.(pending := if slot < |ts| then At(slot) else Null),
              Add(ts, ticks, Task(ticks + SINGLE_PRESS_TICKS, BUTTON_JOB)), NoGesture)
    else
      Outcome(c.(pending := Null), ts,
              if b.pending.At? && hold <= SHORT_MS then DoublePress
              else if b.pending == Null && LONG_MIN_MS <= hold <= LONG_MAX_MS then LongPress
              else NoGesture)
  }

  /** The deferred single press was reported. */
  function SinglePressed(b: State): State {
    b.(pending := Null)
  }

  /** The gestures that the calls of a tick report. */
  function Singles(called: seq<nat>): seq<Gesture> {
    if called == [] then []
    else (if called[0] == BUTTON_JOB then [SinglePress] else []) + Singles(called[1..])
  }

  lemma {:induction false} SinglesNext(called: seq<nat>, k: nat)
    requires k < |called|
    ensures Singles(called[..k + 1]) == Singles(called[..k]) + if called[k] == BUTTON_JOB then [SinglePress] else []
    decreases k
  {
    assert called[..k + 1][0] == called[0] && called[..k + 1][1..] == called[1..][..k];
    if k > 0 {
      assert called[..k][1..] == called[1..][..k - 1];
      SinglesNext(called[1..], k - 1);
    }
  }

  class Recognizer {
    const mgr: TaskManager
    var lastFall: uint32
    var lastRise: uint32
    var lastUp: bool
    var pending: TaskRef

    constructor (mgr: TaskManager)
      ensures this.mgr == mgr && Static() == State(0, 0, false, Null)
    {
      this.mgr := mgr;
      lastFall, lastRise, lastUp, pending := 0, 0, false, Null;
    }

    ghost function Static(): State
      reads this
    {
      State(lastFall, lastRise, lastUp, pending)
    }

    ghost predicate Valid()
      reads this, mgr
    {
      mgr.Valid() && (pending.At? ==> pending.slot < TASK_MAX)
    }

    /** The deferred single press, called by the scheduler. */
    method ButtonTask_SinglePress() returns (gesture: Gesture)
      modifies this`pending
      ensures Static() == SinglePressed(old(Static())) && gesture == SinglePress
    {
      gesture := SinglePress;
      pending := Null;
    }

    /** A tick of the scheduler, whose table holds the recognizer's callback among others. */
    method Tick(rs: seq<seq<Task>>) returns (gestures: seq<Gesture>)
      requires Valid() && mgr.ticks + 1 < 0x1_0000_0000 && |rs| == TASK_MAX && !mgr.processing
      modifies this`pending, mgr, mgr.tasks
      ensures Valid() && mgr.ticks == old(mgr.ticks) + 1 && !mgr.processing
      ensures mgr.tasks[..] == TickTable(old(mgr.tasks[..]), mgr.ticks, rs, 0)
      ensures var called := TickCalls(old(mgr.tasks[..]), mgr.ticks, rs, 0);
              && gestures == Singles(called)
              && Static() == if BUTTON_JOB in called then SinglePressed(old(Static())) else old(Static())
    {
      gestures := [];
      var called := mgr.AutoReloadMatch(rs);
      for k := 0 to |called|
        modifies this`pending
        invariant gestures == Singles(called[..k])
        invariant Static() == if BUTTON_JOB in called[..k] then SinglePressed(old(Static())) else old(Static())
      {
        SinglesNext(called, k);
        assert called[..k + 1] == called[..k] + [called[k]];
        if called[k] == BUTTON_JOB {
          var gesture := ButtonTask_SinglePress();
          gestures := gestures + [gesture];
        }
      }
      assert called[..|called|] == called;
    }

    /** An edge of the button at time `now`. */
    method ButtonISR(currUp: bool, now: uint32) returns (gesture: Gesture)
      requires Valid()
      modifies this, mgr.tasks
      ensures Valid()
      ensures Outcome(Static(), mgr.tasks[..], gesture)
              == Edge(old(Static()), old(mgr.tasks[..]), mgr.ticks, currUp, now)
      ensures var hold, sinceFall := (now - old(lastRise)) % 0x1_0000_0000, (now - old(lastFall)) % 0x1_0000_0000;
              var clear := currUp != old(lastUp) && hold > 100 && sinceFall > 100;
              && lastUp == currUp
              && lastRise == (if clear && currUp then now else old(lastRise))
              && lastFall == (if clear && !currUp then now else old(lastFall))
              && gesture == if clear && !currUp && old(pending) != Null && hold <= 1500 then DoublePress
                            else if clear && !currUp && old(pending) == Null && 2001 <= hold <= 8000 then LongPress
                            else NoGesture
    {
      gesture := NoGesture;
      if currUp == lastUp || Since(now, lastRise) <= DEBOUNCE_MS || Since(now, lastFall) <= DEBOUNCE_MS {
        lastUp := currUp;
        return;
      }
      var hold := Since(now, lastRise);
      lastRise := if currUp then now else lastRise;
      lastFall := if !currUp then now else lastFall;

      if !currUp && pending == Null && hold <= SHORT_MS {
        // probably a single press
        var slot := mgr.tasks_add(Task((mgr.ticks + SINGLE_PRESS_TICKS), BUTTON_JOB));
        pending := if slot < TASK_MAX then At(slot) else Null;
      } else if currUp && pending != Null {
        // probably a double press, not a single press
        mgr.tasks_del(pending.slot);
      } else if !currUp && pending != Null && hold <= SHORT_MS {
        pending := Null;
        gesture := DoublePress;
      } else if !currUp && pending == Null && LONG_MIN_MS <= hold <= LONG_MAX_MS {
        gesture := LongPress;
      } else {
        pending := Null;
      }
      lastUp := currUp;
    }
  }
}
