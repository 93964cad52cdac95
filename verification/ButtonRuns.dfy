/** The gesture recognizer and the scheduler as one machine, over every run of edges, ticks and tasks of others: when a
    press is part of two gestures. */
module ButtonRuns {
  import opened Bits
  import opened Scheduler
  import opened Button

  datatype Report = Report(gesture: Gesture, presses: set<nat>)

  /** The state of both, with history: the number of presses begun, the press that the recognizer's pending single press
      stands for and those that the deferred tasks of the table stand for, and the gestures reported. */
  datatype System = System(
    b: State,
    ts: seq<Task>,
    ticks: nat,
    presses: nat,
    scheduled: nat,
    pressOf: seq<nat>,
    reports: seq<Report>)

  datatype Step =
    | ButtonEdge(up: bool, now: uint32)
    | Tick(rs: seq<seq<Task>>)
    | OtherTask(task: Task)

  /** The shape of the table, the history beside it, and the recognizer's pointer into it. */
  predicate Shaped(s: System) {
    |s.ts| == |s.pressOf| == TASK_MAX && (s.b.pending.At? ==> s.b.pending.slot < TASK_MAX)
  }

  function EdgeStep(s: System, up: bool, now: uint32): (t: System)
    requires Shaped(s)
    ensures Shaped(t)
  {
    var o := Edge(s.b, s.ts, s.ticks, up, now);
    var clear := !Debounced(s.b, up, now);
    var defers := s.b.pending == Null && o.b.pending.At?;
    s.(b := o.b, ts := o.ts,
       presses := if clear && up then s.presses + 1 else s.presses,
       scheduled := if defers then s.presses else s.scheduled,
       pressOf := if defers then s.pressOf[o.b.pending.slot := s.presses] else s.pressOf,
       reports := if o.gesture == DoublePress then s.reports + [Report(DoublePress, {s.scheduled, s.presses})]
                  else if o.gesture == LongPress then s.reports + [Report(LongPress, {s.presses})]
                  else s.reports)
  }

  function Single(press: nat): Report {
    Report(SinglePress, {press})
  }

  /** The recognizer's task in slot `i` reports its press. */
  function Singled(s: System, i: nat): (t: System)
    requires i < |s.pressOf|
  {
    s.(b := SinglePressed(s.b), reports := s.reports + [Single(s.pressOf[i])])
  }

  /** Slot `i` at a tick: a deferred single press is reported, and the callback adds the tasks `us`. */
  function Turn(s: System, i: nat, us: seq<Task>): (t: System)
    requires Shaped(s) && i < TASK_MAX
    ensures Shaped(t) && t.ticks == s.ticks
  {
    if s.ts[i].when != s.ticks then s
    else
      var t := if s.ts[i].job == BUTTON_JOB then Singled(s, i) else s;
      t.(ts := AddAll(s.ts, s.ticks, us))
  }

  function TickFrom(s: System, rs: seq<seq<Task>>, i: nat): (t: System)
    requires Shaped(s) && |rs| == TASK_MAX && i <= TASK_MAX
    ensures Shaped(t) && t.ticks == s.ticks
    decreases |rs| - i
  {
    if i == |rs| then s else TickFrom(Turn(s, i, rs[i]), rs, i + 1)
  }

  ghost predicate Others(us: seq<Task>) {
    forall u | u in us :: u.job != BUTTON_JOB
  }

  ghost predicate OthersOnly(rs: seq<seq<Task>>) {
    |rs| == TASK_MAX && forall k | 0 <= k < TASK_MAX :: Others(rs[k])
  }

  /** Any edges; other code's tasks are not the button's. */
  ghost predicate Allowed(step: Step) {
    match step
    case ButtonEdge(_, _) => true
    case Tick(rs) => OthersOnly(rs)
    case OtherTask(t) => t.job != BUTTON_JOB
  }

  ghost predicate AllAllowed(steps: seq<Step>) {
    forall k | 0 <= k < |steps| :: Allowed(steps[k])
  }

  ghost function Next(s: System, step: Step): (t: System)
    requires Shaped(s) && Allowed(step)
    ensures Shaped(t)
  {
    match step
    case ButtonEdge(up, now) => EdgeStep(s, up, now)
    case Tick(rs) => TickFrom(s.(ticks := s.ticks + 1), rs, 0)
    case OtherTask(t) => s.(ts := Add(s.ts, s.ticks, t))
  }

  // ----- Claims ----------------------------------------------------------------------------------

  /** Slot `j` holds a deferred single press still to come; at a tick, slots from `i` on have not had their turn. */
  predicate Deferred(s: System, i: nat, j: nat)
    requires j < |s.ts|
  {
    s.ts[j].job == BUTTON_JOB && (s.ts[j].when > s.ticks || (j >= i && s.ts[j].when == s.ticks))
  }

  /** No reported gesture contains the press. */
  ghost predicate Unclaimed(reports: seq<Report>, press: nat) {
    forall k | 0 <= k < |reports| :: press !in reports[k].presses
  }

  ghost predicate OncePerPress(reports: seq<Report>) {
    forall j, k | 0 <= j < k < |reports| :: reports[j].presses !! reports[k].presses
  }

  /** The deferred single presses are of different presses, and of none that was reported. */
  ghost predicate DeferredOnce(s: System, i: nat)
    requires Shaped(s)
  {
    && (forall j | 0 <= j < TASK_MAX && Deferred(s, i, j) :: Unclaimed(s.reports, s.pressOf[j]))
    && (forall j, k | 0 <= j < k < TASK_MAX && Deferred(s, i, j) && Deferred(s, i, k) :: s.pressOf[j] != s.pressOf[k])
  }

  /** Some press is part of two gestures, counting those that the deferred single presses in the table will report. */
  ghost predicate ClaimedTwice(s: System)
    requires Shaped(s)
  {
    !(OncePerPress(s.reports) && DeferredOnce(s, TASK_MAX))
  }

  /** The press is part of a reported gesture or deferred. */
  ghost predicate Taken(s: System, press: nat)
    requires Shaped(s)
  {
    !Unclaimed(s.reports, press) || exists j :: 0 <= j < TASK_MAX && Deferred(s, TASK_MAX, j) && s.pressOf[j] == press
  }

  /** A clear falling edge that makes a double press of a single press still in the table; or one with nothing pending
      when the last press is taken already, which it reports as a long press or defers once more. */
  ghost predicate HarmfulFall(s: System, now: uint32)
    requires Shaped(s)
  {
    var hold := Since(now, s.b.lastRise);
    match s.b.pending
    case At(slot) => hold <= SHORT_MS && Deferred(s, TASK_MAX, slot)
    case Null =>
      && Taken(s, s.presses)
      && if hold <= SHORT_MS then FreeSlot(s.ts, s.ticks, 0) < TASK_MAX else LONG_MIN_MS <= hold <= LONG_MAX_MS
  }

  ghost predicate Harmful(s: System, step: Step)
    requires Shaped(s)
  {
    step.ButtonEdge? && !step.up && !Debounced(s.b, false, step.now) && HarmfulFall(s, step.now)
  }

  // ----- The invariant ---------------------------------------------------------------------------

  /** Presses are numbered as they begin. */
  ghost predicate PressesNumbered(s: System, i: nat)
    requires Shaped(s)
  {
    && (forall k | k > s.presses :: Unclaimed(s.reports, k))
    && (forall j | 0 <= j < TASK_MAX && Deferred(s, i, j) :: s.pressOf[j] <= s.presses)
  }

  /** A pending single press and the press after it are in no gesture yet. Its own task, if it is in the table, is where
      the recognizer points; any other is of an earlier press. */
  ghost predicate PendingOpen(s: System, i: nat)
    requires Shaped(s)
  {
    s.b.pending.At? ==>
      && Unclaimed(s.reports, s.scheduled) && Unclaimed(s.reports, s.presses) && s.scheduled <= s.presses
      && forall j | 0 <= j < TASK_MAX && Deferred(s, i, j) ::
           if s.b.pending == At(j) then s.pressOf[j] == s.scheduled else s.pressOf[j] < s.scheduled
  }

  ghost predicate Inv(s: System, i: nat) {
    Shaped(s) && OncePerPress(s.reports) && DeferredOnce(s, i) && PressesNumbered(s, i) && PendingOpen(s, i)
  }

  lemma ReportKeeps(reports: seq<Report>, r: Report)
    requires OncePerPress(reports) && forall p | p in r.presses :: Unclaimed(reports, p)
    ensures OncePerPress(reports + [r])
    ensures forall p :: Unclaimed(reports + [r], p) <==> Unclaimed(reports, p) && p !in r.presses
  {
    var more := reports + [r];
    forall p ensures Unclaimed(more, p) <==> Unclaimed(reports, p) && p !in r.presses {
      assert more[|reports|] == r;
      assert forall k | 0 <= k < |reports| :: more[k] == reports[k];
    }
  }

  lemma ReportedAgain(reports: seq<Report>, r: Report, press: nat)
    requires press in r.presses && !Unclaimed(reports, press)
    ensures !OncePerPress(reports + [r])
  {
    var k :| 0 <= k < |reports| && press in reports[k].presses;
    assert (reports + [r])[k] == reports[k] && (reports + [r])[|reports|] == r;
    assert press in reports[k].presses * r.presses;
  }

  /** Nothing but deferred presses may go away. */
  lemma FewerDeferred(s: System, i: nat, t: System, k: nat)
    requires Inv(s, i) && Shaped(t) && t.reports == s.reports && t.pressOf == s.pressOf && t.scheduled == s.scheduled
    requires t.presses == s.presses && t.b.pending == s.b.pending
    requires forall j | 0 <= j < TASK_MAX && Deferred(t, k, j) :: Deferred(s, i, j)
    ensures Inv(t, k)
  {
  }

  // ----- Edges -----------------------------------------------------------------------------------

  /** An edge that the debounce drops, whichever way it goes. */
  lemma DroppedKeepsInv(s: System, up: bool, now: uint32)
    requires Inv(s, TASK_MAX) && Debounced(s.b, up, now)
    ensures Inv(EdgeStep(s, up, now), TASK_MAX)
  {
    var t := EdgeStep(s, up, now);
    assert forall j | 0 <= j < TASK_MAX :: Deferred(t, TASK_MAX, j) == Deferred(s, TASK_MAX, j);
    FewerDeferred(s, TASK_MAX, t, TASK_MAX);
  }

  lemma RiseKeepsInv(s: System, now: uint32)
    requires Inv(s, TASK_MAX) && !Debounced(s.b, true, now)
    ensures Inv(EdgeStep(s, true, now), TASK_MAX)
  {
    var t := EdgeStep(s, true, now);
    assert forall j | 0 <= j < TASK_MAX && Deferred(t, TASK_MAX, j) :: Deferred(s, TASK_MAX, j);
  }

  /** A short press after another: a double press. */
  lemma DoubleFall(s: System, now: uint32, slot: nat)
    requires Inv(s, TASK_MAX) && !Debounced(s.b, false, now)
    requires s.b.pending == At(slot) && Since(now, s.b.lastRise) <= SHORT_MS
    ensures ClaimedTwice(EdgeStep(s, false, now)) <==> Deferred(s, TASK_MAX, slot)
    ensures !Deferred(s, TASK_MAX, slot) ==> Inv(EdgeStep(s, false, now), TASK_MAX)
  {
    var t := EdgeStep(s, false, now);
    ReportKeeps(s.reports, Report(DoublePress, {s.scheduled, s.presses}));
    assert forall j | 0 <= j < TASK_MAX :: Deferred(t, TASK_MAX, j) == Deferred(s, TASK_MAX, j);
    assert Deferred(s, TASK_MAX, slot) ==> s.pressOf[slot] == s.scheduled;
  }

  /** A long press after a short one is no gesture; the short one stays in the table if it is there. */
  lemma UndefinedFall(s: System, now: uint32)
    requires Inv(s, TASK_MAX) && !Debounced(s.b, false, now)
    requires var hold := Since(now, s.b.lastRise);
             hold > SHORT_MS && (s.b.pending.At? || !(LONG_MIN_MS <= hold <= LONG_MAX_MS))
    ensures Inv(EdgeStep(s, false, now), TASK_MAX)
  {
    var t := EdgeStep(s, false, now);
    assert forall j | 0 <= j < TASK_MAX :: Deferred(t, TASK_MAX, j) == Deferred(s, TASK_MAX, j);
  }

  lemma LongFall(s: System, now: uint32)
    requires Inv(s, TASK_MAX) && !Debounced(s.b, false, now)
    requires s.b.pending == Null && LONG_MIN_MS <= Since(now, s.b.lastRise) <= LONG_MAX_MS
    ensures ClaimedTwice(EdgeStep(s, false, now)) <==> Taken(s, s.presses)
    ensures !Taken(s, s.presses) ==> Inv(EdgeStep(s, false, now), TASK_MAX)
  {
    var t, r := EdgeStep(s, false, now), Report(LongPress, {s.presses});
    assert forall j | 0 <= j < TASK_MAX :: Deferred(t, TASK_MAX, j) == Deferred(s, TASK_MAX, j);
    if Unclaimed(s.reports, s.presses) {
      ReportKeeps(s.reports, r);
    } else {
      ReportedAgain(s.reports, r, s.presses);
    }
  }

  /** A first short press is deferred, if there is room. */
  lemma ShortFall(s: System, now: uint32)
    requires Inv(s, TASK_MAX) && !Debounced(s.b, false, now)
    requires s.b.pending == Null && Since(now, s.b.lastRise) <= SHORT_MS
    ensures var room := FreeSlot(s.ts, s.ticks, 0) < TASK_MAX;
            && (ClaimedTwice(EdgeStep(s, false, now)) <==> Taken(s, s.presses) && room)
            && (!(Taken(s, s.presses) && room) ==> Inv(EdgeStep(s, false, now), TASK_MAX))
  {
    var t, slot := EdgeStep(s, false, now), FreeSlot(s.ts, s.ticks, 0);
    if slot < TASK_MAX {
      assert Deferred(t, TASK_MAX, slot) && !Deferred(s, TASK_MAX, slot) && t.pressOf[slot] == s.presses;
      forall j | 0 <= j < TASK_MAX && j != slot
        ensures Deferred(t, TASK_MAX, j) == Deferred(s, TASK_MAX, j) && t.pressOf[j] == s.pressOf[j]
      {
      }
      DeferredOneMore(s, t, slot);
    } else {
      assert t.ts == s.ts;
      assert forall j | 0 <= j < TASK_MAX :: Deferred(t, TASK_MAX, j) == Deferred(s, TASK_MAX, j);
    }
  }

  /** One more deferred press in a slot that held none. */
  lemma DeferredOneMore(s: System, t: System, slot: nat)
    requires Inv(s, TASK_MAX) && Shaped(t) && slot < TASK_MAX && t.reports == s.reports && t.presses == s.presses
    requires t.b.pending == At(slot) && t.scheduled == s.presses && t.pressOf[slot] == s.presses
    requires Deferred(t, TASK_MAX, slot) && !Deferred(s, TASK_MAX, slot)
    requires forall j | 0 <= j < TASK_MAX && j != slot ::
               Deferred(t, TASK_MAX, j) == Deferred(s, TASK_MAX, j) && t.pressOf[j] == s.pressOf[j]
    ensures ClaimedTwice(t) <==> Taken(s, s.presses)
    ensures !Taken(s, s.presses) ==> Inv(t, TASK_MAX)
  {
    if j :| 0 <= j < TASK_MAX && Deferred(s, TASK_MAX, j) && s.pressOf[j] == s.presses {
      assert Deferred(t, TASK_MAX, j) && t.pressOf[j] == t.pressOf[slot];
    } else if !Taken(s, s.presses) {
      assert forall j | 0 <= j < TASK_MAX && j != slot && Deferred(t, TASK_MAX, j) :: t.pressOf[j] != s.presses;
    }
  }

  /** From every state of the invariant: a clear falling edge claims a press twice exactly when it is harmful. */
  lemma FallClaimsTwiceIff(s: System, now: uint32)
    requires Inv(s, TASK_MAX) && !Debounced(s.b, false, now)
    ensures ClaimedTwice(EdgeStep(s, false, now)) <==> HarmfulFall(s, now)
    ensures !HarmfulFall(s, now) ==> Inv(EdgeStep(s, false, now), TASK_MAX)
  {
    var hold := Since(now, s.b.lastRise);
    if hold <= SHORT_MS {
      match s.b.pending
      case At(slot) => DoubleFall(s, now, slot);
      case Null => ShortFall(s, now);
    } else if s.b.pending == Null && LONG_MIN_MS <= hold <= LONG_MAX_MS {
      LongFall(s, now);
    } else {
      UndefinedFall(s, now);
    }
  }

  // ----- Ticks -----------------------------------------------------------------------------------

  /** Tasks of others put no deferred single press into the table. */
  lemma {:induction false} OthersDeferNothing(ts: seq<Task>, now: nat, us: seq<Task>, j: nat)
    requires Others(us) && j < |ts|
    ensures var t := AddAll(ts, now, us)[j]; t == ts[j] || t.job != BUTTON_JOB
    decreases |us|
  {
    if us != [] {
      assert us[0] in us && forall u | u in us[1..] :: u in us;
      OthersDeferNothing(Add(ts, now, us[0]), now, us[1..], j);
    }
  }

  lemma AddedKeepInv(s: System, us: seq<Task>, i: nat)
    requires Inv(s, i) && Others(us)
    ensures Inv(s.(ts := AddAll(s.ts, s.ticks, us)), i)
  {
    var t := s.(ts := AddAll(s.ts, s.ticks, us));
    forall j | 0 <= j < TASK_MAX && Deferred(t, i, j) ensures Deferred(s, i, j) {
      OthersDeferNothing(s.ts, s.ticks, us, j);
    }
    FewerDeferred(s, i, t, i);
  }

  lemma SingledKeepsInv(s: System, i: nat)
    requires Inv(s, i) && i < TASK_MAX && s.ts[i].when == s.ticks && s.ts[i].job == BUTTON_JOB
    ensures Inv(Singled(s, i), i + 1)
  {
    assert Deferred(s, i, i);
    ReportKeeps(s.reports, Single(s.pressOf[i]));
    var t := Singled(s, i);
    assert forall j | 0 <= j < TASK_MAX && Deferred(t, i + 1, j) :: Deferred(s, i, j) && j != i;
  }

  lemma PassKeepsInv(s: System, i: nat)
    requires Inv(s, i) && i < TASK_MAX
    ensures Inv(s, i + 1)
  {
    assert forall j | 0 <= j < TASK_MAX && Deferred(s, i + 1, j) :: Deferred(s, i, j);
    FewerDeferred(s, i, s, i + 1);
  }

  lemma TurnKeepsInv(s: System, i: nat, us: seq<Task>)
    requires Inv(s, i) && i < TASK_MAX && Others(us)
    ensures Inv(Turn(s, i, us), i + 1)
  {
    PassKeepsInv(s, i);
    if s.ts[i].when == s.ticks {
      if s.ts[i].job == BUTTON_JOB {
        SingledKeepsInv(s, i);
        AddedKeepInv(Singled(s, i), us, i + 1);
      } else {
        AddedKeepInv(s, us, i + 1);
      }
    }
  }

  lemma {:induction false} TickFromKeepsInv(s: System, rs: seq<seq<Task>>, i: nat)
    requires i <= TASK_MAX && OthersOnly(rs) && Inv(s, i)
    ensures Inv(TickFrom(s, rs, i), TASK_MAX)
    decreases TASK_MAX - i
  {
    if i < TASK_MAX {
      TurnKeepsInv(s, i, rs[i]);
      TickFromKeepsInv(Turn(s, i, rs[i]), rs, i + 1);
    }
  }

  lemma TickStarts(s: System)
    requires Inv(s, TASK_MAX)
    ensures Inv(s.(ticks := s.ticks + 1), 0)
  {
    var t := s.(ticks := s.ticks + 1);
    assert forall j | 0 <= j < TASK_MAX :: Deferred(t, 0, j) == Deferred(s, TASK_MAX, j);
    FewerDeferred(s, TASK_MAX, t, 0);
  }

  lemma OtherKeepsInv(s: System, t: Task)
    requires Inv(s, TASK_MAX) && t.job != BUTTON_JOB
    ensures Inv(s.(ts := Add(s.ts, s.ticks, t)), TASK_MAX)
  {
    AddedKeepInv(s, [t], TASK_MAX);
    assert AddAll(s.ts, s.ticks, [t]) == AddAll(Add(s.ts, s.ticks, t), s.ticks, [t][1..]) == Add(s.ts, s.ticks, t);
  }

  /** Every step keeps the invariant but a harmful falling edge, and that claims a press twice: any edges, dropped or
      not, ticks whose callbacks add what they like, and tasks of others. */
  lemma StepClaimsTwiceIff(s: System, step: Step)
    requires Inv(s, TASK_MAX) && Allowed(step)
    ensures ClaimedTwice(Next(s, step)) <==> Harmful(s, step)
    ensures !Harmful(s, step) ==> Inv(Next(s, step), TASK_MAX)
  {
    match step
    case ButtonEdge(up, now) =>
      if Debounced(s.b, up, now) {
        DroppedKeepsInv(s, up, now);
      } else if up {
        RiseKeepsInv(s, now);
      } else {
        FallClaimsTwiceIff(s, now);
      }
    case Tick(rs) =>
      TickStarts(s);
      TickFromKeepsInv(s.(ticks := s.ticks + 1), rs, 0);
    case OtherTask(t) => OtherKeepsInv(s, t);
  }

  // ----- Whole runs ------------------------------------------------------------------------------

  /** A device that has just started. */
  ghost predicate Initial(s: System) {
    && |s.ts| == |s.pressOf| == TASK_MAX && (forall j | 0 <= j < TASK_MAX :: s.ts[j] == Task(0, 0))
    && s.b == State(0, 0, false, Null) && s.presses == 0 && s.reports == []
  }

  lemma InitialInv(s: System)
    requires Initial(s)
    ensures Inv(s, TASK_MAX)
  {
  }

  ghost function Run(s: System, steps: seq<Step>): (t: System)
    requires Shaped(s) && AllAllowed(steps)
    ensures Shaped(t)
    decreases |steps|
  {
    if steps == [] then s
    else
      assert Allowed(steps[0]);
      Run(Next(s, steps[0]), steps[1..])
  }

  /** At no point of the run a press is part of two gestures. */
  ghost predicate NeverTwice(s: System, steps: seq<Step>)
    requires Shaped(s) && AllAllowed(steps)
    decreases |steps|
  {
    && !ClaimedTwice(s)
    && (steps != [] ==> (assert Allowed(steps[0]); NeverTwice(Next(s, steps[0]), steps[1..])))
  }

  /** No falling edge of the run is harmful. */
  ghost predicate Harmless(s: System, steps: seq<Step>)
    requires Shaped(s) && AllAllowed(steps)
    decreases |steps|
  {
    steps != [] ==>
      !Harmful(s, steps[0]) && (assert Allowed(steps[0]); Harmless(Next(s, steps[0]), steps[1..]))
  }

  lemma {:induction false} HarmlessKeepsInv(s: System, steps: seq<Step>)
    requires Inv(s, TASK_MAX) && AllAllowed(steps) && Harmless(s, steps)
    ensures Inv(Run(s, steps), TASK_MAX)
    decreases |steps|
  {
    if steps != [] {
      assert Allowed(steps[0]);
      StepClaimsTwiceIff(s, steps[0]);
      HarmlessKeepsInv(Next(s, steps[0]), steps[1..]);
    }
  }

  /** Over every run each press is part of at most one gesture, at every point, exactly when no falling edge of the run
      is harmful where it happens. */
  lemma {:induction false} NeverTwiceIff(s: System, steps: seq<Step>)
    requires Inv(s, TASK_MAX) && AllAllowed(steps)
    ensures NeverTwice(s, steps) <==> Harmless(s, steps)
    decreases |steps|
  {
    if steps != [] {
      assert Allowed(steps[0]);
      StepClaimsTwiceIff(s, steps[0]);
      if !Harmful(s, steps[0]) {
        NeverTwiceIff(Next(s, steps[0]), steps[1..]);
      }
    }
  }

  /** In such a run no press is part of two reported gestures; in particular a double press is never also reported as a
      single press. */
  lemma OneGesturePerPress(s: System, steps: seq<Step>, j: nat, k: nat)
    requires Inv(s, TASK_MAX) && AllAllowed(steps) && Harmless(s, steps)
    requires j < k < |Run(s, steps).reports|
    ensures Run(s, steps).reports[j].presses !! Run(s, steps).reports[k].presses
  {
    HarmlessKeepsInv(s, steps);
  }

  // ----- Without dropped rises -------------------------------------------------------------------

  /** A rising edge that the debounce drops, although the button was up. */
  predicate DropsRise(s: System, step: Step) {
    step.ButtonEdge? && step.up && !s.b.lastUp && Debounced(s.b, true, step.now)
  }

  ghost predicate NoDroppedRise(s: System, steps: seq<Step>)
    requires Shaped(s) && AllAllowed(steps)
    decreases |steps|
  {
    steps != [] ==>
      !DropsRise(s, steps[0]) && (assert Allowed(steps[0]); NoDroppedRise(Next(s, steps[0]), steps[1..]))
  }

  /** While the button is down the press under way is not taken, and the single press before it has been cancelled. */
  ghost predicate PressOpen(s: System, i: nat)
    requires Shaped(s)
  {
    s.b.lastUp ==>
      && Unclaimed(s.reports, s.presses)
      && forall j | 0 <= j < TASK_MAX && Deferred(s, i, j) :: s.b.pending != At(j) && s.pressOf[j] != s.presses
  }

  lemma {:induction false} PressOpenAtTick(s: System, rs: seq<seq<Task>>, i: nat)
    requires i <= TASK_MAX && OthersOnly(rs) && Inv(s, i) && PressOpen(s, i)
    ensures PressOpen(TickFrom(s, rs, i), TASK_MAX)
    decreases TASK_MAX - i
  {
    if i < TASK_MAX {
      TurnKeepsInv(s, i, rs[i]);
      TurnKeepsPressOpen(s, i, rs[i]);
      PressOpenAtTick(Turn(s, i, rs[i]), rs, i + 1);
    }
  }

  lemma TurnKeepsPressOpen(s: System, i: nat, us: seq<Task>)
    requires Inv(s, i) && i < TASK_MAX && Others(us) && PressOpen(s, i)
    ensures PressOpen(Turn(s, i, us), i + 1)
  {
    var t := Turn(s, i, us);
    forall j | 0 <= j < TASK_MAX && Deferred(t, i + 1, j) ensures Deferred(s, i, j) {
      OthersDeferNothing(s.ts, s.ticks, us, j);
    }
    if s.b.lastUp && s.ts[i].when == s.ticks && s.ts[i].job == BUTTON_JOB {
      assert Deferred(s, i, i);
      ReportKeeps(s.reports, Single(s.pressOf[i]));
    }
  }

  lemma PressOpenKept(s: System, step: Step)
    requires Inv(s, TASK_MAX) && PressOpen(s, TASK_MAX) && Allowed(step) && !DropsRise(s, step)
    ensures !Harmful(s, step) && PressOpen(Next(s, step), TASK_MAX)
  {
    match step
    case ButtonEdge(up, now) =>
      var t := EdgeStep(s, up, now);
      if up && !Debounced(s.b, up, now) {
        assert forall j | 0 <= j < TASK_MAX && Deferred(t, TASK_MAX, j) :: Deferred(s, TASK_MAX, j);
      } else if up {
        assert t == s;
      }
    case Tick(rs) =>
      var u := s.(ticks := s.ticks + 1);
      TickStarts(s);
      assert forall j | 0 <= j < TASK_MAX :: Deferred(u, 0, j) == Deferred(s, TASK_MAX, j);
      PressOpenAtTick(u, rs, 0);
    case OtherTask(task) =>
      var t := Next(s, step);
      assert forall j | 0 <= j < TASK_MAX && Deferred(t, TASK_MAX, j) :: Deferred(s, TASK_MAX, j);
  }

  /** A run in which the debounce drops no rising edge is harmless, whatever falling edges it drops. */
  lemma {:induction false} NoDroppedRiseIsHarmless(s: System, steps: seq<Step>)
    requires Inv(s, TASK_MAX) && PressOpen(s, TASK_MAX) && AllAllowed(steps) && NoDroppedRise(s, steps)
    ensures Harmless(s, steps)
    decreases |steps|
  {
    if steps != [] {
      assert Allowed(steps[0]);
      PressOpenKept(s, steps[0]);
      StepClaimsTwiceIff(s, steps[0]);
      NoDroppedRiseIsHarmless(Next(s, steps[0]), steps[1..]);
    }
  }
}
