/** Exactly-once over whole runs of the scheduler: tasks added from anywhere, deleted, and called by the ticks. */
module SchedulerRuns {
  import opened Scheduler

  datatype Call = Call(job: nat, tick: nat)

  /** The table and its history: when every accepted task is due, which were deleted in time, and all calls made. */
  datatype System = System(
    ts: seq<Task>,
    now: nat,
    dues: map<nat, nat>,
    cancelled: set<nat>,
    calls: multiset<Call>)

  datatype Step =
    | Adding(task: Task)
    | Deleting(slot: nat)
    | Tick(rs: seq<seq<Task>>)

  /** A task added: it is on record when it got a slot. */
  function Added(s: System, t: Task): System {
    if FreeSlot(s.ts, s.now, 0) < |s.ts| then
      s.(ts := Add(s.ts, s.now, t), dues := s.dues[t.job := t.when])
    else s
  }

  function Deleted(s: System, slot: nat): System
    requires slot < |s.ts|
  {
    s.(ts := s.ts[slot := Task(0, 0)],
       cancelled := if Pending(s.ts[slot], s.now) then s.cancelled + {s.ts[slot].job} else s.cancelled)
  }

  function AddedAll(s: System, us: seq<Task>): System
    decreases |us|
  {
    if us == [] then s else AddedAll(Added(s, us[0]), us[1..])
  }

  /** Slot `i` at a tick: a task that is due is called and adds the tasks `us`. */
  function Turn(s: System, i: nat, us: seq<Task>): System
    requires i < |s.ts|
  {
    if s.ts[i].when != s.now then s
    else AddedAll(s.(calls := s.calls + multiset{Call(s.ts[i].job, s.now)}), us)
  }

  lemma {:induction false} AddedAllTable(s: System, us: seq<Task>)
    ensures AddedAll(s, us).ts == AddAll(s.ts, s.now, us)
    ensures AddedAll(s, us).now == s.now && AddedAll(s, us).calls == s.calls
    decreases |us|
  {
    if us != [] {
      AddedAllTable(Added(s, us[0]), us[1..]);
    }
  }

  lemma TurnKeepsSize(s: System, i: nat, us: seq<Task>)
    requires i < |s.ts|
    ensures |Turn(s, i, us).ts| == |s.ts| && Turn(s, i, us).now == s.now
  {
    AddedAllTable(s.(calls := s.calls + multiset{Call(s.ts[i].job, s.now)}), us);
  }

  function TickFrom(s: System, rs: seq<seq<Task>>, i: nat): System
    requires |s.ts| == |rs| == TASK_MAX && i <= TASK_MAX
    decreases |rs| - i
  {
    if i == |rs| then s
    else
      TurnKeepsSize(s, i, rs[i]);
      TickFrom(Turn(s, i, rs[i]), rs, i + 1)
  }

  function Next(s: System, step: Step): System
    requires |s.ts| == TASK_MAX && Allowed(s, step)
  {
    match step
    case Adding(t) => Added(s, t)
    case Deleting(slot) => Deleted(s, slot)
    case Tick(rs) => TickFrom(s.(now := s.now + 1), rs, 0)
  }

  /** Tasks are added for the future only, and every task is a new one. */
  ghost predicate NewTask(s: System, t: Task) {
    t.when > s.now && t.job !in s.dues
  }

  ghost predicate NewTasks(s: System, us: seq<Task>)
    decreases |us|
  {
    us != [] ==> NewTask(s, us[0]) && NewTasks(Added(s, us[0]), us[1..])
  }

  /** What the callbacks of a tick add, slot by slot from `i` on, is new and fits in front of what is still due. */
  ghost predicate NewReactions(s: System, rs: seq<seq<Task>>, i: nat)
    requires |s.ts| == |rs| == TASK_MAX && i <= TASK_MAX
    decreases |rs| - i
  {
    i < |rs| ==>
      && (s.ts[i].when == s.now ==>
            && NewTasks(s.(calls := s.calls + multiset{Call(s.ts[i].job, s.now)}), rs[i])
            && HasRoom(s.ts, s.now, i + 1, rs[i]))
      && (TurnKeepsSize(s, i, rs[i]); NewReactions(Turn(s, i, rs[i]), rs, i + 1))
  }

  ghost predicate Allowed(s: System, step: Step)
    requires |s.ts| == TASK_MAX
  {
    match step
    case Adding(t) => NewTask(s, t)
    case Deleting(slot) => slot < TASK_MAX
    case Tick(rs) => |rs| == TASK_MAX && NewReactions(s.(now := s.now + 1), rs, 0)
  }

  // ----- The invariant ---------------------------------------------------------------------------

  /** Slot `j` holds a task whose call is still to come; at a tick, slots from `i` on have not had their turn. */
  predicate Live(s: System, i: nat, j: nat)
    requires j < |s.ts|
  {
    s.ts[j].when > s.now || (j >= i && s.ts[j].when == s.now)
  }

  ghost predicate LiveJob(s: System, i: nat, job: nat) {
    exists j :: 0 <= j < |s.ts| && Live(s, i, j) && s.ts[j].job == job
  }

  predicate Called(s: System, job: nat)
    requires job in s.dues
  {
    Call(job, s.dues[job]) in s.calls
  }

  ghost predicate SlotsOnRecord(s: System, i: nat) {
    && |s.ts| == TASK_MAX
    && (forall j | 0 <= j < TASK_MAX && Live(s, i, j) ::
          && s.ts[j].job in s.dues && s.dues[s.ts[j].job] == s.ts[j].when
          && s.ts[j].job !in s.cancelled && !Called(s, s.ts[j].job))
    && (forall j, k | 0 <= j < k < TASK_MAX && Live(s, i, j) && Live(s, i, k) :: s.ts[j].job != s.ts[k].job)
  }

  ghost predicate CallsOnRecord(s: System) {
    forall c | c in s.calls ::
      s.calls[c] == 1 && c.job in s.dues && c.tick == s.dues[c.job] <= s.now && c.job !in s.cancelled
  }

  /** Every task on record that was not deleted is waiting for its call or has had it. */
  ghost predicate JobsServed(s: System, i: nat) {
    forall job | job in s.dues && job !in s.cancelled :: LiveJob(s, i, job) || Called(s, job)
  }

  ghost predicate Inv(s: System, i: nat) {
    SlotsOnRecord(s, i) && CallsOnRecord(s) && JobsServed(s, i) && s.cancelled <= s.dues.Keys
  }

  lemma AddedServesJobs(s: System, t: Task, i: nat)
    requires Inv(s, i) && NewTask(s, t)
    requires var r := FreeSlot(s.ts, s.now, 0); r < TASK_MAX ==> !Live(s, i, r)
    ensures JobsServed(Added(s, t), i)
  {
    var u := Added(s, t);
    var slot := FreeSlot(s.ts, s.now, 0);
    if slot < TASK_MAX {
      forall job | job in u.dues && job !in u.cancelled ensures LiveJob(u, i, job) || Called(u, job) {
        if job == t.job {
          assert Live(u, i, slot) && u.ts[slot].job == job;
        } else if LiveJob(s, i, job) {
          var j :| 0 <= j < TASK_MAX && Live(s, i, j) && s.ts[j].job == job;
          assert Live(u, i, j) && u.ts[j].job == job;
        }
      }
    }
  }

  /** Adding a task in a slot that does not hold one still to be called. */
  lemma AddedKeepsInv(s: System, t: Task, i: nat)
    requires Inv(s, i) && NewTask(s, t)
    requires var r := FreeSlot(s.ts, s.now, 0); r < TASK_MAX ==> !Live(s, i, r)
    ensures Inv(Added(s, t), i)
  {
    AddedServesJobs(s, t, i);
  }

  lemma {:induction false} AddedAllKeepsInv(s: System, us: seq<Task>, i: nat)
    requires i <= TASK_MAX && Inv(s, i) && NewTasks(s, us) && HasRoom(s.ts, s.now, i, us)
    ensures Inv(AddedAll(s, us), i)
    decreases |us|
  {
    if us != [] {
      var r, d := FreeSlot(s.ts, s.now, 0), FirstDue(s.ts, s.now, i);
      if d < TASK_MAX && r >= d {
        NoRoom(s.ts, s.now, d);
      }
      AddedKeepsInv(s, us[0], i);
      RoomAfterAdd(s.ts, s.now, us[0], d);
      FirstDueAfterAdd(s.ts, s.now, us[0], i);
      AddedAllKeepsInv(Added(s, us[0]), us[1..], i);
    }
  }

  /** The call of a task that is due at its turn. */
  lemma CallKeepsInv(s: System, i: nat)
    requires Inv(s, i) && i < TASK_MAX && s.ts[i].when == s.now
    ensures Inv(s.(calls := s.calls + multiset{Call(s.ts[i].job, s.now)}), i + 1)
  {
    var c := s.(calls := s.calls + multiset{Call(s.ts[i].job, s.now)});
    assert Live(s, i, i);
    forall job | job in c.dues && job !in c.cancelled ensures LiveJob(c, i + 1, job) || Called(c, job) {
      if LiveJob(s, i, job) {
        var j :| 0 <= j < TASK_MAX && Live(s, i, j) && s.ts[j].job == job;
        if j != i {
          assert Live(c, i + 1, j) && c.ts[j].job == job;
        }
      }
    }
  }

  lemma PassKeepsInv(s: System, i: nat)
    requires Inv(s, i) && i < TASK_MAX && s.ts[i].when != s.now
    ensures Inv(s, i + 1)
  {
    forall job | job in s.dues && job !in s.cancelled ensures LiveJob(s, i + 1, job) || Called(s, job) {
      if LiveJob(s, i, job) {
        var j :| 0 <= j < TASK_MAX && Live(s, i, j) && s.ts[j].job == job;
        assert Live(s, i + 1, j);
      }
    }
  }

  lemma TurnKeepsInv(s: System, i: nat, us: seq<Task>)
    requires Inv(s, i) && i < TASK_MAX
    requires s.ts[i].when == s.now ==>
               && NewTasks(s.(calls := s.calls + multiset{Call(s.ts[i].job, s.now)}), us)
               && HasRoom(s.ts, s.now, i + 1, us)
    ensures Inv(Turn(s, i, us), i + 1)
  {
    if s.ts[i].when != s.now {
      PassKeepsInv(s, i);
    } else {
      CallKeepsInv(s, i);
      AddedAllKeepsInv(s.(calls := s.calls + multiset{Call(s.ts[i].job, s.now)}), us, i + 1);
    }
  }

  lemma {:induction false} TickFromKeepsInv(s: System, rs: seq<seq<Task>>, i: nat)
    requires i <= TASK_MAX && |rs| == TASK_MAX && Inv(s, i) && NewReactions(s, rs, i)
    ensures Inv(TickFrom(s, rs, i), TASK_MAX) && TickFrom(s, rs, i).now == s.now
    decreases TASK_MAX - i
  {
    if i < TASK_MAX {
      TurnKeepsSize(s, i, rs[i]);
      TurnKeepsInv(s, i, rs[i]);
      TickFromKeepsInv(Turn(s, i, rs[i]), rs, i + 1);
    }
  }

  /** A new tick gives every task that has become due a turn. */
  lemma TickStarts(s: System)
    requires Inv(s, TASK_MAX)
    ensures Inv(s.(now := s.now + 1), 0)
  {
    var u := s.(now := s.now + 1);
    forall job | job in u.dues && job !in u.cancelled ensures LiveJob(u, 0, job) || Called(u, job) {
      if LiveJob(s, TASK_MAX, job) {
        var j :| 0 <= j < TASK_MAX && Live(s, TASK_MAX, j) && s.ts[j].job == job;
        assert Live(u, 0, j);
      }
    }
  }

  lemma DeletedKeepsInv(s: System, slot: nat)
    requires Inv(s, TASK_MAX) && slot < TASK_MAX
    ensures Inv(Deleted(s, slot), TASK_MAX)
  {
    var u := Deleted(s, slot);
    assert Pending(s.ts[slot], s.now) ==> Live(s, TASK_MAX, slot);
    forall job | job in u.dues && job !in u.cancelled ensures LiveJob(u, TASK_MAX, job) || Called(u, job) {
      if LiveJob(s, TASK_MAX, job) {
        var j :| 0 <= j < TASK_MAX && Live(s, TASK_MAX, j) && s.ts[j].job == job;
        assert Live(u, TASK_MAX, j);
      }
    }
  }

  lemma InvKept(s: System, step: Step)
    requires Inv(s, TASK_MAX) && Allowed(s, step)
    ensures Inv(Next(s, step), TASK_MAX)
  {
    match step
    case Adding(t) => AddedKeepsInv(s, t, TASK_MAX);
    case Deleting(slot) => DeletedKeepsInv(s, slot);
    case Tick(rs) =>
      TickStarts(s);
      TickFromKeepsInv(s.(now := s.now + 1), rs, 0);
  }

  // ----- Whole runs ------------------------------------------------------------------------------

  ghost predicate Initial(s: System) {
    && |s.ts| == TASK_MAX && (forall i | 0 <= i < TASK_MAX :: !Pending(s.ts[i], s.now))
    && s.dues == map[] && s.cancelled == {} && s.calls == multiset{}
  }

  /** The run is one in which every step is allowed where it happens. */
  ghost predicate IsRun(s: System, steps: seq<Step>)
    requires Inv(s, TASK_MAX)
    decreases |steps|
  {
    steps != [] ==>
      Allowed(s, steps[0]) && (assert Inv(Next(s, steps[0]), TASK_MAX) by { InvKept(s, steps[0]); }
                               IsRun(Next(s, steps[0]), steps[1..]))
  }

  ghost function Run(s: System, steps: seq<Step>): System
    requires Inv(s, TASK_MAX) && IsRun(s, steps)
    decreases |steps|
  {
    if steps == [] then s
    else
      InvKept(s, steps[0]);
      Run(Next(s, steps[0]), steps[1..])
  }

  lemma {:induction false} RunInv(s: System, steps: seq<Step>)
    requires Inv(s, TASK_MAX) && IsRun(s, steps)
    ensures Inv(Run(s, steps), TASK_MAX)
    decreases |steps|
  {
    if steps != [] {
      InvKept(s, steps[0]);
      RunInv(Next(s, steps[0]), steps[1..]);
    }
  }

  lemma InitialInv(s: System)
    requires Initial(s)
    ensures Inv(s, TASK_MAX)
  {
  }

  /** Exactly once: at any point of any run, every task that got a slot and was not deleted while it waited has been
      called once, at the tick it was added for, if that tick has come, and not at all before. */
  lemma CalledExactlyOnce(s: System, steps: seq<Step>, job: nat, tick: nat)
    requires Inv(s, TASK_MAX) && IsRun(s, steps)
    ensures var t := Run(s, steps);
            job in t.dues && job !in t.cancelled ==>
              t.calls[Call(job, tick)] == if tick == t.dues[job] && tick <= t.now then 1 else 0
  {
    var t := Run(s, steps);
    RunInv(s, steps);
    if job in t.dues && job !in t.cancelled {
      if Call(job, tick) in t.calls {
        assert t.calls[Call(job, tick)] == 1;
      } else if t.dues[job] <= t.now {
        assert !LiveJob(t, TASK_MAX, job) by { NotLive(t, job); }
      }
    }
  }

  lemma NotLive(s: System, job: nat)
    requires Inv(s, TASK_MAX) && job in s.dues && s.dues[job] <= s.now
    ensures !LiveJob(s, TASK_MAX, job)
  {
    if j :| 0 <= j < TASK_MAX && Live(s, TASK_MAX, j) && s.ts[j].job == job {
      assert false;
    }
  }

  /** A deleted task is never called, and nothing is called that was not added. */
  lemma OnlyAddedAreCalled(s: System, steps: seq<Step>, c: Call)
    requires Inv(s, TASK_MAX) && IsRun(s, steps)
    ensures var t := Run(s, steps);
            c in t.calls ==> c.job in t.dues && c.job !in t.cancelled && c.tick == t.dues[c.job]
  {
    RunInv(s, steps);
  }

  // ----- The history is that of the implementation -----------------------------------------------

  function CallsAt(jobs: seq<nat>, now: nat): multiset<Call> {
    if jobs == [] then multiset{} else multiset{Call(jobs[0], now)} + CallsAt(jobs[1..], now)
  }

  /** The table and the calls of a tick are those that the timer interrupt is proved to compute. */
  lemma {:induction false} TickIsImplementation(s: System, rs: seq<seq<Task>>, i: nat)
    requires |s.ts| == |rs| == TASK_MAX && i <= TASK_MAX
    ensures TickFrom(s, rs, i).ts == TickTable(s.ts, s.now, rs, i)
    ensures TickFrom(s, rs, i).calls == s.calls + CallsAt(TickCalls(s.ts, s.now, rs, i), s.now)
    decreases TASK_MAX - i
  {
    if i < TASK_MAX {
      var c := s.(calls := s.calls + multiset{Call(s.ts[i].job, s.now)});
      var u := Turn(s, i, rs[i]);
      AddedAllTable(c, rs[i]);
      TurnKeepsSize(s, i, rs[i]);
      TickIsImplementation(u, rs, i + 1);
      if s.ts[i].when == s.now {
        var rest := TickCalls(u.ts, s.now, rs, i + 1);
        assert ([s.ts[i].job] + rest)[1..] == rest;
      }
    }
  }
}
