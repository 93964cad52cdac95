/** What becomes of a short press: its deferred task in the scheduler's table, who may take it away, and its report. */
module ButtonReports {
  import opened Bits
  import opened Scheduler
  import opened Button
  import opened ButtonRuns

  // ----- The tick is that of the implementation --------------------------------------------------

  function Gestures(reports: seq<Report>): seq<Gesture> {
    seq(|reports|, k requires 0 <= k < |reports| => reports[k].gesture)
  }

  lemma GesturesOfMore(reports: seq<Report>, press: nat, job: nat, rest: seq<nat>)
    ensures Gestures(if job == BUTTON_JOB then reports + [Single(press)] else reports) + Singles(rest)
            == Gestures(reports) + Singles([job] + rest)
  {
    assert ([job] + rest)[1..] == rest;
  }

  lemma {:induction false} TickTableIsImplementation(s: System, rs: seq<seq<Task>>, i: nat)
    requires Shaped(s) && |rs| == TASK_MAX && i <= TASK_MAX
    ensures var t := TickFrom(s, rs, i);
            t.ts == TickTable(s.ts, s.ticks, rs, i) && t.presses == s.presses && t.pressOf == s.pressOf
    decreases TASK_MAX - i
  {
    if i < TASK_MAX {
      TickTableIsImplementation(Turn(s, i, rs[i]), rs, i + 1);
    }
  }

  lemma {:induction false} TickCallsAreReported(s: System, rs: seq<seq<Task>>, i: nat)
    requires Shaped(s) && |rs| == TASK_MAX && i <= TASK_MAX
    ensures var t, called := TickFrom(s, rs, i), TickCalls(s.ts, s.ticks, rs, i);
            && t.b == (if BUTTON_JOB in called then SinglePressed(s.b) else s.b)
            && Gestures(t.reports) == Gestures(s.reports) + Singles(called)
    decreases TASK_MAX - i
  {
    if i < TASK_MAX {
      TickCallsAreReported(Turn(s, i, rs[i]), rs, i + 1);
      if s.ts[i].when == s.ticks {
        var rest := TickCalls(AddAll(s.ts, s.ticks, rs[i]), s.ticks, rs, i + 1);
        GesturesOfMore(s.reports, s.pressOf[i], s.ts[i].job, rest);
      }
    }
  }

  /** A tick of the product machine changes the table and the recognizer as the timer interrupt does, and reports the
      same gestures. */
  lemma TickIsImplementation(s: System, rs: seq<seq<Task>>, i: nat)
    requires Shaped(s) && |rs| == TASK_MAX && i <= TASK_MAX
    ensures var t, called := TickFrom(s, rs, i), TickCalls(s.ts, s.ticks, rs, i);
            && t.ts == TickTable(s.ts, s.ticks, rs, i)
            && t.b == (if BUTTON_JOB in called then SinglePressed(s.b) else s.b)
            && Gestures(t.reports) == Gestures(s.reports) + Singles(called)
  {
    TickTableIsImplementation(s, rs, i);
    TickCallsAreReported(s, rs, i);
  }

  // ----- A deferred press through a tick ---------------------------------------------------------

  /** What the callbacks of a tick add is for the future and fits in front of what is still due. */
  ghost predicate Fits(s: System, rs: seq<seq<Task>>, i: nat)
    requires Shaped(s) && |rs| == TASK_MAX && i <= TASK_MAX
    decreases |rs| - i
  {
    i < |rs| ==>
      && (s.ts[i].when == s.ticks ==>
            (forall u | u in rs[i] :: u.when > s.ticks) && HasRoom(s.ts, s.ticks, i + 1, rs[i]))
      && Fits(Turn(s, i, rs[i]), rs, i + 1)
  }

  /** A turn that fits leaves a task that is pending, or due and still to be called. */
  lemma TurnKeepsTask(s: System, rs: seq<seq<Task>>, i: nat, slot: nat)
    requires Shaped(s) && |rs| == TASK_MAX && i < TASK_MAX && Fits(s, rs, i) && slot < TASK_MAX
    requires s.ts[slot].when > s.ticks || (slot > i && s.ts[slot].when == s.ticks)
    ensures Turn(s, i, rs[i]).ts[slot] == s.ts[slot]
  {
    if s.ts[i].when == s.ticks {
      if s.ts[slot].when > s.ticks {
        AddAllKeepsPending(s.ts, s.ticks, rs[i], slot);
      } else {
        AddedTasksKeepDueIff(s.ts, s.ticks, i + 1, rs[i]);
      }
    }
  }

  /** Reports are only added. */
  lemma {:induction false} TickAddsReports(s: System, rs: seq<seq<Task>>, i: nat)
    requires Shaped(s) && |rs| == TASK_MAX && i <= TASK_MAX
    ensures s.reports <= TickFrom(s, rs, i).reports
    decreases TASK_MAX - i
  {
    if i < TASK_MAX {
      TickAddsReports(Turn(s, i, rs[i]), rs, i + 1);
    }
  }

  /** A deferred single press that is not due yet survives a tick in its slot. */
  lemma {:induction false} WaitingSurvives(s: System, rs: seq<seq<Task>>, i: nat, slot: nat)
    requires Shaped(s) && i <= TASK_MAX && |rs| == TASK_MAX && Fits(s, rs, i)
    requires slot < TASK_MAX && s.ts[slot].when > s.ticks
    ensures TickFrom(s, rs, i).ts[slot] == s.ts[slot]
    decreases TASK_MAX - i
  {
    if i < TASK_MAX {
      TurnKeepsTask(s, rs, i, slot);
      WaitingSurvives(Turn(s, i, rs[i]), rs, i + 1, slot);
    }
  }

  /** One that is due is reported at that tick. */
  lemma {:induction false} DueIsReported(s: System, rs: seq<seq<Task>>, i: nat, slot: nat)
    requires Shaped(s) && i <= slot < TASK_MAX && |rs| == TASK_MAX && Fits(s, rs, i)
    requires s.ts[slot].job == BUTTON_JOB && s.ts[slot].when == s.ticks
    ensures Single(s.pressOf[slot]) in TickFrom(s, rs, i).reports
    decreases slot - i
  {
    var u := Turn(s, i, rs[i]);
    if i == slot {
      assert u.reports[|s.reports|] == Single(s.pressOf[slot]);
      TickAddsReports(u, rs, i + 1);
      assert TickFrom(u, rs, i + 1).reports[|s.reports|] == Single(s.pressOf[slot]);
    } else {
      TurnKeepsTask(s, rs, i, slot);
      DueIsReported(u, rs, i + 1, slot);
    }
  }

  /** A tick touches nothing of the recognizer but what is pending. */
  lemma {:induction false} TickKeepsStatics(s: System, rs: seq<seq<Task>>, i: nat)
    requires Shaped(s) && |rs| == TASK_MAX && i <= TASK_MAX
    ensures var t := TickFrom(s, rs, i);
            && (t.b == s.b || t.b == SinglePressed(s.b)) && t.presses == s.presses
            && t.pressOf == s.pressOf && t.scheduled == s.scheduled
    decreases TASK_MAX - i
  {
    if i < TASK_MAX {
      TickKeepsStatics(Turn(s, i, rs[i]), rs, i + 1);
    }
  }

  /** The recognizer's own task clears what is pending. */
  lemma {:induction false} DueClearsPending(s: System, rs: seq<seq<Task>>, i: nat, slot: nat)
    requires Shaped(s) && i <= slot < TASK_MAX && |rs| == TASK_MAX && Fits(s, rs, i)
    requires s.ts[slot].job == BUTTON_JOB && s.ts[slot].when == s.ticks
    ensures TickFrom(s, rs, i).b.pending == Null
    decreases slot - i
  {
    var u := Turn(s, i, rs[i]);
    if i == slot {
      TickKeepsStatics(u, rs, i + 1);
    } else {
      TurnKeepsTask(s, rs, i, slot);
      DueClearsPending(u, rs, i + 1, slot);
    }
  }

  // ----- What a rise deletes ---------------------------------------------------------------------

  /** The task that the recognizer would delete is its own. */
  predicate PointsToOwn(s: System)
    requires Shaped(s)
  {
    s.b.pending.At? && !s.b.lastUp ==> Deferred(s, TASK_MAX, s.b.pending.slot)
  }

  /** A step that is no dropped edge and whose callbacks leave what is due. */
  ghost predicate Clean(s: System, step: Step)
    requires Shaped(s) && Allowed(step)
  {
    match step
    case ButtonEdge(up, now) => Debounced(s.b, up, now) ==> up == s.b.lastUp
    case Tick(rs) => Fits(s.(ticks := s.ticks + 1), rs, 0)
    case OtherTask(_) => true
  }

  lemma PointsToOwnKept(s: System, step: Step)
    requires Shaped(s) && Allowed(step) && PointsToOwn(s) && Clean(s, step)
    ensures PointsToOwn(Next(s, step))
  {
    match step
    case ButtonEdge(up, now) =>
    case OtherTask(t) =>
      AddKeepsPending(s.ts, s.ticks, t);
    case Tick(rs) =>
      var u := s.(ticks := s.ticks + 1);
      TickKeepsStatics(u, rs, 0);
      if s.b.pending.At? && !s.b.lastUp {
        var slot := s.b.pending.slot;
        if s.ts[slot].when == u.ticks {
          DueClearsPending(u, rs, 0, slot);
        } else {
          WaitingSurvives(u, rs, 0, slot);
        }
      }
  }

  /** A clear rise takes nobody else's pending task exactly when the slot it clears holds none. That is always so while
      the recognizer points to its own task. */
  lemma RiseDeletes(s: System, now: uint32)
    requires Shaped(s) && !Debounced(s.b, true, now)
    ensures var t := EdgeStep(s, true, now);
            (forall j | 0 <= j < TASK_MAX && Pending(s.ts[j], s.ticks) && s.ts[j].job != BUTTON_JOB ::
               t.ts[j] == s.ts[j])
            <==> (s.b.pending.At? ==>
                    !Pending(s.ts[s.b.pending.slot], s.ticks) || s.ts[s.b.pending.slot].job == BUTTON_JOB)
    ensures PointsToOwn(s) && s.b.pending.At? ==> s.ts[s.b.pending.slot].job == BUTTON_JOB
  {
    if s.b.pending.At? {
      var slot, t := s.b.pending.slot, EdgeStep(s, true, now);
      assert t.ts[slot] == Task(0, 0);
    }
  }

  /** A falling edge that the debounce drops leaves the recognizer pointing to its own task exactly when nothing is
      pending or the task is in the table. */
  lemma DroppedFallLosesTask(s: System, now: uint32)
    requires Shaped(s) && s.b.lastUp && Debounced(s.b, false, now)
    ensures PointsToOwn(EdgeStep(s, false, now))
            <==> (s.b.pending.At? ==> Deferred(s, TASK_MAX, s.b.pending.slot))
  {
  }

  // ----- The deferred single press ---------------------------------------------------------------

  /** Ticks and tasks of others, without edges. */
  ghost predicate QuietRun(s: System, steps: seq<Step>)
    requires Shaped(s) && AllAllowed(steps)
    decreases |steps|
  {
    steps != [] ==>
      && (assert Allowed(steps[0]); !steps[0].ButtonEdge? && Clean(s, steps[0]))
      && QuietRun(Next(s, steps[0]), steps[1..])
  }

  function TickCount(steps: seq<Step>): nat {
    if steps == [] then 0 else (if steps[0].Tick? then 1 else 0) + TickCount(steps[1..])
  }

  lemma {:induction false} QuietIsHarmless(s: System, steps: seq<Step>)
    requires Shaped(s) && AllAllowed(steps) && QuietRun(s, steps)
    ensures Harmless(s, steps)
    decreases |steps|
  {
    if steps != [] {
      assert Allowed(steps[0]);
      QuietIsHarmless(Next(s, steps[0]), steps[1..]);
    }
  }

  lemma StepAddsReports(s: System, step: Step)
    requires Shaped(s) && Allowed(step)
    ensures s.reports <= Next(s, step).reports
  {
    if step.Tick? {
      TickAddsReports(s.(ticks := s.ticks + 1), step.rs, 0);
    }
  }

  lemma {:induction false} RunAddsReports(s: System, steps: seq<Step>)
    requires Shaped(s) && AllAllowed(steps)
    ensures s.reports <= Run(s, steps).reports
    decreases |steps|
  {
    if steps != [] {
      assert Allowed(steps[0]);
      StepAddsReports(s, steps[0]);
      RunAddsReports(Next(s, steps[0]), steps[1..]);
    }
  }

  lemma ReportClaims(reports: seq<Report>, press: nat)
    requires Single(press) in reports
    ensures !Unclaimed(reports, press)
  {
    var k :| 0 <= k < |reports| && reports[k] == Single(press);
    assert press in reports[k].presses;
  }

  /** One quiet step of a deferred press: reported by the tick it is due at, and else still in its slot. */
  lemma QuietStep(s: System, step: Step, slot: nat)
    requires Inv(s, TASK_MAX) && Allowed(step) && Clean(s, step) && !step.ButtonEdge?
    requires slot < TASK_MAX && Deferred(s, TASK_MAX, slot)
    ensures var t := Next(s, step);
            && Inv(t, TASK_MAX) && t.pressOf == s.pressOf && t.ticks == s.ticks + (if step.Tick? then 1 else 0)
            && if t.ticks == s.ts[slot].when then Single(s.pressOf[slot]) in t.reports
               else t.ts[slot] == s.ts[slot] && Deferred(t, TASK_MAX, slot)
  {
    StepClaimsTwiceIff(s, step);
    if step.Tick? {
      var u := s.(ticks := s.ticks + 1);
      TickKeepsStatics(u, step.rs, 0);
      if s.ts[slot].when == u.ticks {
        DueIsReported(u, step.rs, 0, slot);
      } else {
        WaitingSurvives(u, step.rs, 0, slot);
      }
    } else {
      AddKeepsPending(s.ts, s.ticks, step.task);
    }
  }

  /** Without edges a deferred press is reported as a single press exactly when its tick has come, whatever tasks others
      add, and is in no gesture before. */
  lemma {:induction false} DeferredIsReportedIff(s: System, steps: seq<Step>, slot: nat)
    requires Inv(s, TASK_MAX) && AllAllowed(steps) && QuietRun(s, steps)
    requires slot < TASK_MAX && Deferred(s, TASK_MAX, slot)
    ensures var t, due := Run(s, steps), s.ticks + TickCount(steps) >= s.ts[slot].when;
            (if due then Single(s.pressOf[slot]) in t.reports else Unclaimed(t.reports, s.pressOf[slot]))
    decreases |steps|
  {
    if steps != [] {
      assert Allowed(steps[0]);
      QuietStep(s, steps[0], slot);
      var t := Next(s, steps[0]);
      if t.ticks == s.ts[slot].when {
        RunAddsReports(t, steps[1..]);
      } else {
        DeferredIsReportedIff(t, steps[1..], slot);
      }
    }
  }

  lemma {:induction false} TurnsReportDeferred(s: System, rs: seq<seq<Task>>, i: nat, press: nat)
    requires Inv(s, i) && OthersOnly(rs) && i <= TASK_MAX && Unclaimed(s.reports, press)
    requires forall j | 0 <= j < TASK_MAX && Deferred(s, i, j) :: s.pressOf[j] != press
    ensures var t := TickFrom(s, rs, i);
            && Unclaimed(t.reports, press)
            && forall j | 0 <= j < TASK_MAX && Deferred(t, TASK_MAX, j) :: t.pressOf[j] != press
    decreases TASK_MAX - i
  {
    if i < TASK_MAX {
      var t := Turn(s, i, rs[i]);
      TurnKeepsInv(s, i, rs[i]);
      forall j | 0 <= j < TASK_MAX && Deferred(t, i + 1, j) ensures t.pressOf[j] != press {
        OthersDeferNothing(s.ts, s.ticks, rs[i], j);
        assert Deferred(s, i, j);
      }
      assert s.ts[i].when == s.ticks && s.ts[i].job == BUTTON_JOB ==> Deferred(s, i, i);
      TurnsReportDeferred(t, rs, i + 1, press);
    }
  }

  /** A press that is not taken stays so without edges. */
  lemma {:induction false} NotTakenStays(s: System, steps: seq<Step>, press: nat)
    requires Inv(s, TASK_MAX) && AllAllowed(steps) && QuietRun(s, steps) && !Taken(s, press)
    ensures Unclaimed(Run(s, steps).reports, press)
    decreases |steps|
  {
    if steps != [] {
      assert Allowed(steps[0]);
      StepClaimsTwiceIff(s, steps[0]);
      var t := Next(s, steps[0]);
      if steps[0].Tick? {
        var u := s.(ticks := s.ticks + 1);
        TickStarts(s);
        assert forall j | 0 <= j < TASK_MAX :: Deferred(u, 0, j) == Deferred(s, TASK_MAX, j);
        TurnsReportDeferred(u, steps[0].rs, 0, press);
      } else {
        assert forall j | 0 <= j < TASK_MAX && Deferred(t, TASK_MAX, j) :: Deferred(s, TASK_MAX, j);
      }
      NotTakenStays(t, steps[1..], press);
    }
  }

  /** The first short press is deferred by fifteen ticks exactly when some slot holds no pending task, and is lost
      without a report when all are pending. */
  lemma ShortPressIsDeferredIff(s: System, now: uint32)
    requires Shaped(s) && !Debounced(s.b, false, now)
    requires s.b.pending == Null && (now - s.b.lastRise) % 0x1_0000_0000 <= 1500
    ensures var t, slot := EdgeStep(s, false, now), FreeSlot(s.ts, s.ticks, 0);
            && t.reports == s.reports && t.ticks == s.ticks
            && (slot < TASK_MAX <==> exists j :: 0 <= j < TASK_MAX && !Pending(s.ts[j], s.ticks))
            && if slot < TASK_MAX then
                 && t.b.pending == At(slot) && Deferred(t, TASK_MAX, slot)
                 && t.ts[slot].when == s.ticks + 15 && t.pressOf[slot] == s.presses
               else t.b.pending == Null && t.ts == s.ts && t.pressOf == s.pressOf
  {
  }

  /** From the falling edge on, without further edges: a short press that is not taken yet is reported as a single press
      by the fifteenth tick and not before, exactly when a slot was free at the edge; else it is never reported. Tasks
      of others do not matter. */
  lemma SinglePressIsReportedIff(s: System, now: uint32, steps: seq<Step>)
    requires Inv(s, TASK_MAX) && !Debounced(s.b, false, now) && !Taken(s, s.presses)
    requires s.b.pending == Null && (now - s.b.lastRise) % 0x1_0000_0000 <= 1500
    requires AllAllowed(steps) && QuietRun(EdgeStep(s, false, now), steps)
    ensures var t := Run(EdgeStep(s, false, now), steps);
            if FreeSlot(s.ts, s.ticks, 0) < TASK_MAX && TickCount(steps) >= 15
            then Single(s.presses) in t.reports else Unclaimed(t.reports, s.presses)
  {
    ShortPressIsDeferredIff(s, now);
    FallClaimsTwiceIff(s, now);
    var t := EdgeStep(s, false, now);
    if FreeSlot(s.ts, s.ticks, 0) < TASK_MAX {
      DeferredIsReportedIff(t, steps, FreeSlot(s.ts, s.ticks, 0));
    } else {
      assert forall j | 0 <= j < TASK_MAX :: Deferred(t, TASK_MAX, j) == Deferred(s, TASK_MAX, j);
      NotTakenStays(t, steps, s.presses);
    }
  }
}
