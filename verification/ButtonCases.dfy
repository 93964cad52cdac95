/** Runs of the button and the scheduler, from a device that has just started, in which a dropped edge does harm. */
module ButtonCases {
  import opened Scheduler
  import opened Button
  import opened ButtonRuns
  import opened ButtonReports

  /** Some run leads from `s` to `r`. */
  ghost predicate Reaches(s: System, r: System)
    requires Shaped(s)
  {
    exists steps :: AllAllowed(steps) && Run(s, steps) == r
  }

  lemma ReachesItself(s: System)
    requires Shaped(s)
    ensures Reaches(s, s)
  {
    assert Run(s, []) == s;
  }

  lemma {:induction false} RunOn(s: System, steps: seq<Step>, step: Step)
    requires Shaped(s) && AllAllowed(steps) && Allowed(step)
    ensures AllAllowed(steps + [step]) && Run(s, steps + [step]) == Next(Run(s, steps), step)
    decreases |steps|
  {
    var more := steps + [step];
    if steps == [] {
      assert more[1..] == [];
    } else {
      assert Allowed(steps[0]);
      assert more[1..] == steps[1..] + [step];
      RunOn(Next(s, steps[0]), steps[1..], step);
    }
  }

  /** One more step of a run. */
  lemma Go(s: System, r: System, step: Step) returns (t: System)
    requires Shaped(s) && Shaped(r) && Reaches(s, r) && Allowed(step)
    ensures Shaped(t) && t == Next(r, step) && Reaches(s, t)
  {
    var steps :| AllAllowed(steps) && Run(s, steps) == r;
    RunOn(s, steps, step);
    t := Next(r, step);
  }

  /** The callbacks of the tick add nothing. */
  function NoTasks(): (rs: seq<seq<Task>>)
    ensures |rs| == TASK_MAX && forall k | 0 <= k < |rs| :: rs[k] == []
  {
    seq(TASK_MAX, _ => [])
  }

  lemma {:induction false} NothingFits(s: System, i: nat)
    requires Shaped(s) && i <= TASK_MAX
    ensures Fits(s, NoTasks(), i)
    decreases TASK_MAX - i
  {
    if i < TASK_MAX {
      NothingFits(Turn(s, i, NoTasks()[i]), i + 1);
    }
  }

  /** Ticks go by until a deferred press is reported. */
  lemma {:induction false} Waits(s: System, r: System, slot: nat) returns (t: System)
    requires Shaped(s) && Inv(r, TASK_MAX) && Reaches(s, r) && slot < TASK_MAX && Deferred(r, TASK_MAX, slot)
    ensures Shaped(t) && Reaches(s, t) && Single(r.pressOf[slot]) in t.reports
    ensures t.b == SinglePressed(r.b) && t.presses == r.presses
    decreases r.ts[slot].when - r.ticks
  {
    var u := r.(ticks := r.ticks + 1);
    NothingFits(u, 0);
    t := Go(s, r, Tick(NoTasks()));
    QuietStep(r, Tick(NoTasks()), slot);
    TickKeepsStatics(u, NoTasks(), 0);
    if r.ts[slot].when == u.ticks {
      DueClearsPending(u, NoTasks(), 0, slot);
    } else {
      t := Waits(s, t, slot);
    }
  }

  /** A short press of 200 ms, deferred. */
  lemma FirstPress(s: System) returns (t: System)
    requires Initial(s)
    ensures Inv(t, TASK_MAX) && Shaped(s) && Reaches(s, t) && t.presses == 1 && t.pressOf[0] == 1
    ensures t.b == State(1200, 1000, false, At(0)) && Deferred(t, TASK_MAX, 0)
  {
    ReachesItself(s);
    InitialInv(s);
    var r := Go(s, s, ButtonEdge(true, 1000));
    StepClaimsTwiceIff(s, ButtonEdge(true, 1000));
    assert r.b == State(0, 1000, true, Null) && r.presses == 1 && r.ts == s.ts && r.reports == [];
    t := Go(s, r, ButtonEdge(false, 1200));
    assert !Taken(r, 1);
    StepClaimsTwiceIff(r, ButtonEdge(false, 1200));
    ShortPressIsDeferredIff(r, 1200);
  }

  /** A short press is released, the bounce of the next one is dropped, the short press is reported when it is due, and
      the release of the next one is measured from the first rise: the first press is reported as a long press too. */
  lemma ReportedAsSingleAndLong(s: System) returns (t: System)
    requires Initial(s)
    ensures Shaped(s) && Reaches(s, t) && Single(1) in t.reports && Report(LongPress, {1}) in t.reports
    ensures !OncePerPress(t.reports)
  {
    var r := FirstPress(s);
    StepClaimsTwiceIff(r, ButtonEdge(true, 1290));
    r := Go(s, r, ButtonEdge(true, 1290));
    assert r.b == State(1200, 1000, true, At(0)) && Deferred(r, TASK_MAX, 0) && r.presses == 1;
    r := Waits(s, r, 0);
    t := Go(s, r, ButtonEdge(false, 4300));
    assert t.reports == r.reports + [Report(LongPress, {1})];
    ReportClaims(r.reports, 1);
    ReportedAgain(r.reports, Report(LongPress, {1}), 1);
    assert t.reports[|r.reports|] == Report(LongPress, {1});
    var k :| 0 <= k < |r.reports| && r.reports[k] == Single(1);
    assert t.reports[k] == Single(1);
  }

  /** Two presses of 200 ms from the start: one double press, and nothing else. */
  lemma ReportedAsDouble(s: System) returns (t: System)
    requires Initial(s)
    ensures Shaped(s) && Reaches(s, t) && t.reports == [Report(DoublePress, {1, 2})] && t.ts == s.ts
  {
    ReachesItself(s);
    var r := Go(s, s, ButtonEdge(true, 1000));
    assert r.b == State(0, 1000, true, Null) && r.ts == s.ts && r.presses == 1 && r.reports == [];
    r := Go(s, r, ButtonEdge(false, 1200));
    assert r.b == State(1200, 1000, false, At(0)) && r.ts[1..] == s.ts[1..] && r.scheduled == 1 && r.reports == [];
    r := Go(s, r, ButtonEdge(true, 1400));
    assert r.b == State(1200, 1400, true, At(0)) && r.ts == s.ts && r.presses == 2;
    t := Go(s, r, ButtonEdge(false, 1600));
  }

  /** A press from the start is long when it is held for 2001 to 8000 ms. */
  lemma ReportedAsLongIff(s: System, hold: nat) returns (t: System)
    requires Initial(s) && 1500 < hold < 0x1_0000
    ensures Shaped(s) && Reaches(s, t)
    ensures t.reports == if 2001 <= hold <= 8000 then [Report(LongPress, {1})] else []
  {
    ReachesItself(s);
    var r := Go(s, s, ButtonEdge(true, 1000));
    assert r.b == State(0, 1000, true, Null) && r.presses == 1 && r.reports == [];
    t := Go(s, r, ButtonEdge(false, 1000 + hold));
  }

  /** A second press cancels the first, and its falling edge is dropped. */
  lemma SecondPressDropped(s: System) returns (t: System)
    requires Initial(s)
    ensures Shaped(s) && Shaped(t) && Reaches(s, t) && t.b == State(1200, 1400, false, At(0))
    ensures t.ts == s.ts && t.ticks == s.ticks
  {
    ReachesItself(s);
    var r := Go(s, s, ButtonEdge(true, 1000));
    assert r.b == State(0, 1000, true, Null) && r.ts == s.ts;
    r := Go(s, r, ButtonEdge(false, 1200));
    assert r.b == State(1200, 1000, false, At(0)) && r.ts[1..] == s.ts[1..];
    r := Go(s, r, ButtonEdge(true, 1400));
    assert r.b == State(1200, 1400, true, At(0)) && r.ts == s.ts;
    t := Go(s, r, ButtonEdge(false, 1450));
  }

  /** The falling edge of a second press is dropped, a task of others takes the slot that the second press cleared, and
      the rise of a third press deletes it. */
  lemma RiseDeletesForeignTask(s: System, task: Task) returns (r: System, t: System)
    requires Initial(s) && task.when > s.ticks && task.job != BUTTON_JOB
    ensures Shaped(s) && Shaped(r) && Reaches(s, r) && Reaches(s, t) && t == EdgeStep(r, true, 1600)
    ensures task in r.ts && Pending(task, r.ticks) && task !in t.ts
  {
    r := SecondPressDropped(s);
    r := Go(s, r, OtherTask(task));
    assert r.ts == s.ts[0 := task] && r.ts[0] == task;
    t := Go(s, r, ButtonEdge(true, 1600));
    assert t.ts == r.ts[0 := Task(0, 0)];
  }
}
