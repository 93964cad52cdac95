/** Which gesture a press is: whole presses, from the rising edge to the falling one, with ticks and tasks of others in
    between. Times are in milliseconds, and wrap around. */
module ButtonGestures {
  import opened Bits
  import opened Scheduler
  import opened Button
  import opened ButtonRuns
  import opened ButtonReports

  /** A clear edge going up begins a press and reports nothing; one going down reports a double press exactly when a
      single press is pending and the hold is at most 1500, a long press exactly when none is and the hold is from 2001
      to 8000, and otherwise nothing. */
  lemma EdgeReports(s: System, up: bool, now: uint32)
    requires Shaped(s) && !Debounced(s.b, up, now)
    ensures var t, hold := EdgeStep(s, up, now), (now - s.b.lastRise) % 0x1_0000_0000;
            && t.presses == s.presses + (if up then 1 else 0)
            && t.reports == s.reports
                            + if up then []
                              else if s.b.pending != Null && hold <= 1500 then
                                [Report(DoublePress, {s.scheduled, s.presses})]
                              else if s.b.pending == Null && 2001 <= hold <= 8000 then
                                [Report(LongPress, {s.presses})]
                              else []
  {
  }

  ghost predicate NoEdges(steps: seq<Step>) {
    AllAllowed(steps) && forall k | 0 <= k < |steps| :: !steps[k].ButtonEdge?
  }

  /** Each turn leaves what is pending, or reports and clears it. */
  lemma {:induction false} TurnsClearIff(s: System, rs: seq<seq<Task>>, i: nat)
    requires Shaped(s) && |rs| == TASK_MAX && i <= TASK_MAX
    ensures var t := TickFrom(s, rs, i);
            && s.reports <= t.reports
            && t.b == (if |t.reports| == |s.reports| then s.b else SinglePressed(s.b))
    decreases TASK_MAX - i
  {
    if i < TASK_MAX {
      TurnsClearIff(Turn(s, i, rs[i]), rs, i + 1);
    }
  }

  /** Without edges, what is pending is cleared exactly by a report; the presses, and when the last edges were, stay. */
  ghost predicate Passed(s: System, t: System) {
    && s.reports <= t.reports && t.presses == s.presses && t.scheduled == s.scheduled
    && t.b == (if |t.reports| == |s.reports| then s.b else SinglePressed(s.b))
  }

  /** Presses are claimed once, and the press under way is open. */
  ghost predicate Good(s: System) {
    Inv(s, TASK_MAX) && PressOpen(s, TASK_MAX)
  }

  lemma StepPasses(s: System, step: Step)
    requires Good(s) && Allowed(step) && !step.ButtonEdge?
    ensures Good(Next(s, step)) && Passed(s, Next(s, step))
  {
    PressOpenKept(s, step);
    StepClaimsTwiceIff(s, step);
    if step.Tick? {
      var u := s.(ticks := s.ticks + 1);
      TickKeepsStatics(u, step.rs, 0);
      TurnsClearIff(u, step.rs, 0);
    }
  }

  lemma {:induction false} TimePasses(s: System, steps: seq<Step>)
    requires Good(s) && NoEdges(steps)
    ensures Good(Run(s, steps)) && Passed(s, Run(s, steps))
    decreases |steps|
  {
    if steps != [] {
      assert Allowed(steps[0]);
      StepPasses(s, steps[0]);
      TimePasses(Next(s, steps[0]), steps[1..]);
    }
  }

  lemma ClearEdgeKeeps(s: System, up: bool, now: uint32)
    requires Good(s) && !Debounced(s.b, up, now)
    ensures Good(EdgeStep(s, up, now))
  {
    PressOpenKept(s, ButtonEdge(up, now));
    StepClaimsTwiceIff(s, ButtonEdge(up, now));
  }

  // ----- One press -------------------------------------------------------------------------------

  /** A press: a rising edge, time that passes, a falling edge. Both edges are clear. */
  datatype Press = Press(rise: uint32, during: seq<Step>, fall: uint32)

  ghost function Held(s: System, p: Press): System
    requires Shaped(s) && AllAllowed(p.during)
  {
    Run(EdgeStep(s, true, p.rise), p.during)
  }

  ghost function Released(s: System, p: Press): System
    requires Shaped(s) && AllAllowed(p.during)
  {
    EdgeStep(Held(s, p), false, p.fall)
  }

  ghost predicate IsPress(s: System, p: Press) {
    && Good(s) && NoEdges(p.during)
    && !Debounced(s.b, true, p.rise) && !Debounced(Held(s, p).b, false, p.fall)
  }

  /** The gesture of a press is decided by how long it is held and whether a single press is still pending when it ends:
      one that was, and that no tick has reported while the button was held, makes a double press of two short ones. */
  lemma PressReports(s: System, p: Press)
    requires IsPress(s, p)
    ensures var h, t := Held(s, p), Released(s, p);
            var hold, second := (p.fall - p.rise) % 0x1_0000_0000, s.b.pending != Null && h.reports == s.reports;
            && Good(t) && t.presses == s.presses + 1 && s.reports <= h.reports
            && t.reports == h.reports
                            + (if second && hold <= 1500 then [Report(DoublePress, {s.scheduled, s.presses + 1})]
                               else if !second && 2001 <= hold <= 8000 then [Report(LongPress, {s.presses + 1})]
                               else [])
            && (t.b.pending != Null <==> !second && hold <= 1500 && HasFree(h))
            && (t.b.pending != Null ==> t.scheduled == s.presses + 1)
  {
    ClearEdgeKeeps(s, true, p.rise);
    EdgeReports(s, true, p.rise);
    TimePasses(EdgeStep(s, true, p.rise), p.during);
    ClearEdgeKeeps(Held(s, p), false, p.fall);
    EdgeReports(Held(s, p), false, p.fall);
  }

  /** Some slot of the scheduler holds no pending task. */
  ghost predicate HasFree(s: System)
    requires Shaped(s)
  {
    exists j :: 0 <= j < TASK_MAX && !Pending(s.ts[j], s.ticks)
  }

  // ----- Two presses -----------------------------------------------------------------------------

  /** A report that has just been made is the only one of its presses, and none of them is deferred. */
  lemma NothingElse(t: System, reports: seq<Report>, r: Report)
    requires Inv(t, TASK_MAX) && t.reports == reports + [r]
    ensures forall k | 0 <= k < |reports| :: reports[k].presses !! r.presses
    ensures forall j | 0 <= j < TASK_MAX && Deferred(t, TASK_MAX, j) :: t.pressOf[j] !in r.presses
  {
    assert t.reports[|reports|] == r;
    forall k | 0 <= k < |reports| ensures reports[k].presses !! r.presses {
      assert t.reports[k] == reports[k];
    }
  }

  /** Two presses with time passing between and during them. */
  ghost predicate TwoPresses(s: System, p: Press, between: seq<Step>, q: Press) {
    IsPress(s, p) && NoEdges(between) && IsPress(Run(Released(s, p), between), q)
  }

  /** Two short presses are reported as one double press exactly when the first had a free slot and no tick has reported
      a single press since. Otherwise the second fall reports nothing. */
  lemma TwoShortPresses(s: System, p: Press, between: seq<Step>, q: Press)
    requires TwoPresses(s, p, between, q) && s.b.pending == Null
    requires (p.fall - p.rise) % 0x1_0000_0000 <= 1500 && (q.fall - q.rise) % 0x1_0000_0000 <= 1500
    ensures var released, again := Released(s, p), Run(Released(s, p), between);
            var h, t := Held(again, q), Released(again, q);
            && Good(t)
            && t.reports == h.reports
                            + if HasFree(Held(s, p)) && h.reports == released.reports
                              then [Report(DoublePress, {s.presses + 1, s.presses + 2})] else []
  {
    var released := Released(s, p);
    PressReports(s, p);
    TimePasses(released, between);
    PressReports(Run(released, between), q);
  }

  /** The two presses of a double press are in no other gesture, reported or still to come. */
  lemma DoublePressOnly(s: System, p: Press, between: seq<Step>, q: Press)
    requires TwoPresses(s, p, between, q) && s.b.pending == Null && HasFree(Held(s, p))
    requires (p.fall - p.rise) % 0x1_0000_0000 <= 1500 && (q.fall - q.rise) % 0x1_0000_0000 <= 1500
    requires Held(Run(Released(s, p), between), q).reports == Released(s, p).reports
    ensures var both, before := {s.presses + 1, s.presses + 2}, Released(s, p).reports;
            var t := Released(Run(Released(s, p), between), q);
            && t.reports == before + [Report(DoublePress, both)]
            && (forall k | 0 <= k < |before| :: before[k].presses !! both)
            && (forall j | 0 <= j < TASK_MAX && Deferred(t, TASK_MAX, j) :: t.pressOf[j] !in both)
  {
    TwoShortPresses(s, p, between, q);
    var before, both := Released(s, p).reports, {s.presses + 1, s.presses + 2};
    NothingElse(Released(Run(Released(s, p), between), q), before, Report(DoublePress, both));
  }

  // ----- In time ---------------------------------------------------------------------------------

  /** What is deferred is not due before tick `due`. */
  ghost predicate NotBefore(s: System, i: nat, due: nat)
    requires Shaped(s)
  {
    s.ticks < due && forall j | 0 <= j < TASK_MAX && Deferred(s, i, j) :: s.ts[j].when >= due
  }

  lemma {:induction false} TurnsReportNothing(s: System, rs: seq<seq<Task>>, i: nat, due: nat)
    requires Shaped(s) && OthersOnly(rs) && i <= TASK_MAX && NotBefore(s, i, due)
    ensures TickFrom(s, rs, i).reports == s.reports && NotBefore(TickFrom(s, rs, i), TASK_MAX, due)
    decreases TASK_MAX - i
  {
    if i < TASK_MAX {
      var t := Turn(s, i, rs[i]);
      if s.ts[i].when == s.ticks {
        assert !Deferred(s, i, i);
      }
      forall j | 0 <= j < TASK_MAX && Deferred(t, i + 1, j) ensures t.ts[j].when >= due {
        OthersDeferNothing(s.ts, s.ticks, rs[i], j);
        assert Deferred(s, i, j);
      }
      TurnsReportNothing(t, rs, i + 1, due);
    }
  }

  lemma {:induction false} NothingReportedBefore(s: System, steps: seq<Step>, due: nat)
    requires Shaped(s) && NoEdges(steps) && NotBefore(s, TASK_MAX, due) && s.ticks + TickCount(steps) < due
    ensures Run(s, steps).reports == s.reports && NotBefore(Run(s, steps), TASK_MAX, due)
    ensures Run(s, steps).ticks == s.ticks + TickCount(steps)
    decreases |steps|
  {
    if steps != [] {
      assert Allowed(steps[0]);
      var t := Next(s, steps[0]);
      if steps[0].Tick? {
        var u := s.(ticks := s.ticks + 1);
        assert forall j | 0 <= j < TASK_MAX && Deferred(u, 0, j) :: Deferred(s, TASK_MAX, j);
        TurnsReportNothing(u, steps[0].rs, 0, due);
      } else {
        assert forall j | 0 <= j < TASK_MAX && Deferred(t, TASK_MAX, j) :: Deferred(s, TASK_MAX, j);
      }
      NothingReportedBefore(t, steps[1..], due);
    }
  }

  /** A first short press is due fifteen ticks after its fall. */
  lemma FallNotBefore(s: System, now: uint32)
    requires Shaped(s) && !Debounced(s.b, false, now) && s.b.pending == Null && Since(now, s.b.lastRise) <= 1500
    requires NotBefore(s, TASK_MAX, s.ticks + 15)
    ensures NotBefore(EdgeStep(s, false, now), TASK_MAX, s.ticks + 15)
  {
    var t := EdgeStep(s, false, now);
    forall j | 0 <= j < TASK_MAX && Deferred(t, TASK_MAX, j) ensures t.ts[j].when >= s.ticks + 15 {
      assert t.ts[j] == s.ts[j] ==> Deferred(s, TASK_MAX, j);
    }
  }

  lemma RiseNotBefore(s: System, now: uint32, due: nat)
    requires Shaped(s) && !Debounced(s.b, true, now) && NotBefore(s, TASK_MAX, due)
    ensures NotBefore(EdgeStep(s, true, now), TASK_MAX, due)
  {
    var t := EdgeStep(s, true, now);
    assert forall j | 0 <= j < TASK_MAX && Deferred(t, TASK_MAX, j) :: Deferred(s, TASK_MAX, j);
  }

  lemma PressNotBefore(s: System, p: Press)
    requires IsPress(s, p) && s.b.pending == Null && (p.fall - p.rise) % 0x1_0000_0000 <= 1500
    requires NotBefore(Held(s, p), TASK_MAX, Held(s, p).ticks + 15)
    ensures NotBefore(Released(s, p), TASK_MAX, Held(s, p).ticks + 15)
  {
    ClearEdgeKeeps(s, true, p.rise);
    TimePasses(EdgeStep(s, true, p.rise), p.during);
    FallNotBefore(Held(s, p), p.fall);
  }

  /** When nothing else deferred is due sooner, fewer than fifteen ticks from the first fall to the second report
      nothing, whatever tasks others add meanwhile: two short presses in that time are one double press. */
  lemma DoublePressInTime(s: System, p: Press, between: seq<Step>, q: Press)
    requires TwoPresses(s, p, between, q) && s.b.pending == Null
    requires (p.fall - p.rise) % 0x1_0000_0000 <= 1500
    requires NotBefore(Held(s, p), TASK_MAX, Held(s, p).ticks + 15)
    requires TickCount(between) + TickCount(q.during) < 15
    ensures Held(Run(Released(s, p), between), q).reports == Released(s, p).reports
  {
    var released, due := Released(s, p), Held(s, p).ticks + 15;
    PressNotBefore(s, p);
    NothingReportedBefore(released, between, due);
    var again := Run(released, between);
    RiseNotBefore(again, q.rise, due);
    NothingReportedBefore(EdgeStep(again, true, q.rise), q.during, due);
  }
}
