/** The tick scheduler: a fixed table of tasks and the timer interrupt that calls the ones that are due.

    A task's callback and argument are a number, its job. What a callback does to the table is up to the environment:
    it adds any list of tasks. */
module Scheduler {
  const TASK_MAX := 20

  datatype Task = Task(when: nat, job: nat)

  predicate Pending(t: Task, now: nat) {
    t.when > now
  }

  /** The first slot from `i` on that holds no pending task, or the table's size. */
  function FreeSlot(ts: seq<Task>, now: nat, i: nat): (r: nat)
    requires i <= |ts|
    ensures i <= r <= |ts|
    ensures forall j | i <= j < r :: Pending(ts[j], now)
    ensures r < |ts| ==> !Pending(ts[r], now)
    decreases |ts| - i
  {
    if i == |ts| || !Pending(ts[i], now) then i else FreeSlot(ts, now, i + 1)
  }

  function Add(ts: seq<Task>, now: nat, t: Task): (r: seq<Task>)
    ensures |r| == |ts|
  {
    var i := FreeSlot(ts, now, 0);
    if i < |ts| then ts[i := t] else ts
  }

  /** Adding a task replaces no pending task, and fails exactly when all slots hold one. */
  lemma AddKeepsPending(ts: seq<Task>, now: nat, t: Task)
    ensures forall i | 0 <= i < |ts| && Pending(ts[i], now) :: Add(ts, now, t)[i] == ts[i]
    ensures FreeSlot(ts, now, 0) == |ts| <==> forall i | 0 <= i < |ts| :: Pending(ts[i], now)
    ensures FreeSlot(ts, now, 0) < |ts| ==> t in Add(ts, now, t)
  {
    var i := FreeSlot(ts, now, 0);
    if i < |ts| {
      assert Add(ts, now, t)[i] == t;
    }
  }

  /** What a callback leaves of the table when it adds the tasks `us`. */
  function AddAll(ts: seq<Task>, now: nat, us: seq<Task>): (r: seq<Task>)
    ensures |r| == |ts|
    decreases |us|
  {
    if us == [] then ts else AddAll(Add(ts, now, us[0]), now, us[1..])
  }

  /** The table after the slots from `i` on have had their turn at tick `now`. */
  function TickTable(ts: seq<Task>, now: nat, rs: seq<seq<Task>>, i: nat): (u: seq<Task>)
    requires |rs| == |ts| && i <= |ts|
    ensures |u| == |ts|
    decreases |ts| - i
  {
    if i == |ts| then ts
    else TickTable(if ts[i].when == now then AddAll(ts, now, rs[i]) else ts, now, rs, i + 1)
  }

  /** The jobs called at tick `now` by the slots from `i` on. */
  function TickCalls(ts: seq<Task>, now: nat, rs: seq<seq<Task>>, i: nat): seq<nat>
    requires |rs| == |ts| && i <= |ts|
    decreases |ts| - i
  {
    if i == |ts| then []
    else if ts[i].when == now then [ts[i].job] + TickCalls(AddAll(ts, now, rs[i]), now, rs, i + 1)
    else TickCalls(ts, now, rs, i + 1)
  }

  // ----- Room for several tasks ------------------------------------------------------------------

  /** The first slot from `i` on that is due at tick `now`, or the table's size. */
  function FirstDue(ts: seq<Task>, now: nat, i: nat): (d: nat)
    requires i <= |ts|
    ensures i <= d <= |ts|
    ensures forall j | i <= j < d :: ts[j].when != now
    ensures d < |ts| ==> ts[d].when == now
    decreases |ts| - i
  {
    if i == |ts| || ts[i].when == now then i else FirstDue(ts, now, i + 1)
  }

  /** Number of the first `n` slots that hold no pending task. */
  function Room(ts: seq<Task>, now: nat, n: nat): nat
    requires n <= |ts|
  {
    if n == 0 then 0 else Room(ts, now, n - 1) + (if Pending(ts[n - 1], now) then 0 else 1)
  }

  /** The tasks go into slots before the first one that is still to be called. */
  predicate HasRoom(ts: seq<Task>, now: nat, i: nat, us: seq<Task>)
    requires i <= |ts|
  {
    FirstDue(ts, now, i) < |ts| ==> |us| <= Room(ts, now, FirstDue(ts, now, i))
  }

  /** The slots from `i` on that are due at tick `now` still hold their tasks. */
  ghost predicate KeepsDue(ts: seq<Task>, us: seq<Task>, now: nat, i: nat)
    requires |ts| == |us|
  {
    forall j | i <= j < |ts| && ts[j].when == now :: us[j] == ts[j]
  }

  lemma {:induction false} RoomAfterAdd(ts: seq<Task>, now: nat, t: Task, n: nat)
    requires n <= |ts| && t.when > now
    ensures Room(Add(ts, now, t), now, n) == Room(ts, now, n) - (if FreeSlot(ts, now, 0) < n then 1 else 0)
  {
    if n > 0 {
      RoomAfterAdd(ts, now, t, n - 1);
    }
  }

  lemma {:induction false} NoRoom(ts: seq<Task>, now: nat, n: nat)
    requires n <= |ts| && n <= FreeSlot(ts, now, 0)
    ensures Room(ts, now, n) == 0
  {
    if n > 0 {
      NoRoom(ts, now, n - 1);
    }
  }

  lemma {:induction false} AddAllKeepsPending(ts: seq<Task>, now: nat, us: seq<Task>, j: nat)
    requires j < |ts| && Pending(ts[j], now)
    ensures AddAll(ts, now, us)[j] == ts[j]
    decreases |us|
  {
    if us != [] {
      AddAllKeepsPending(Add(ts, now, us[0]), now, us[1..], j);
    }
  }

  /** A task added in front of what is due leaves it where it is. */
  lemma FirstDueAfterAdd(ts: seq<Task>, now: nat, t: Task, i: nat)
    requires i <= |ts| && t.when > now
    requires FirstDue(ts, now, i) < |ts| ==> FreeSlot(ts, now, 0) < FirstDue(ts, now, i)
    ensures FirstDue(Add(ts, now, t), now, i) == FirstDue(ts, now, i)
    ensures KeepsDue(ts, Add(ts, now, t), now, i) && KeepsDue(Add(ts, now, t), ts, now, i)
  {
    var r := Add(ts, now, t);
    forall j | i <= j < |ts| ensures ts[j].when == now <==> r[j].when == now {
      assert j != FreeSlot(ts, now, 0) ==> r[j] == ts[j];
    }
    SameFirstDue(ts, r, now, i);
  }

  lemma SameFirstDue(ts: seq<Task>, us: seq<Task>, now: nat, i: nat)
    requires i <= |ts| == |us| && forall j | i <= j < |ts| :: ts[j].when == now <==> us[j].when == now
    ensures FirstDue(ts, now, i) == FirstDue(us, now, i)
  {
  }

  /** Tasks added for the future in a callback leave alone what is still due in the same tick exactly when they fit into
      the slots without a pending task before the first due one. The callback's own slot is one of them, so a single
      task always fits. */
  lemma {:induction false} AddedTasksKeepDueIff(ts: seq<Task>, now: nat, i: nat, us: seq<Task>)
    requires i <= |ts| && forall u | u in us :: u.when > now
    ensures KeepsDue(ts, AddAll(ts, now, us), now, i) <==> HasRoom(ts, now, i, us)
    decreases |us|
  {
    var d := FirstDue(ts, now, i);
    if us != [] && d < |ts| {
      var t, r := us[0], FreeSlot(ts, now, 0);
      assert t in us && forall u | u in us[1..] :: u in us;
      RoomAfterAdd(ts, now, t, d);
      if r < d {
        FirstDueAfterAdd(ts, now, t, i);
        AddedTasksKeepDueIff(Add(ts, now, t), now, i, us[1..]);
      } else {
        NoRoom(ts, now, d);
        AddAllKeepsPending(Add(ts, now, t), now, us[1..], d);
      }
    }
  }

  lemma OneTaskHasRoom(ts: seq<Task>, now: nat, i: nat, t: Task)
    requires i < |ts| && !Pending(ts[i], now)
    ensures HasRoom(ts, now, i + 1, [t])
  {
    RoomGrows(ts, now, i + 1, FirstDue(ts, now, i + 1));
  }

  lemma {:induction false} RoomGrows(ts: seq<Task>, now: nat, m: nat, n: nat)
    requires m <= n <= |ts|
    ensures Room(ts, now, m) <= Room(ts, now, n)
    decreases n
  {
    if m < n {
      RoomGrows(ts, now, m, n - 1);
    }
  }

  // ----- The implementation ----------------------------------------------------------------------

  class TaskManager {
    const tasks: array<Task>
    var ticks: nat
    var processing: bool

    constructor ()
      ensures Valid() && fresh(tasks) && tasks.Length == 20 && ticks == 0 && !processing
      ensures forall i | 0 <= i < TASK_MAX :: tasks[i] == Task(0, 0)
    {
      tasks := new Task[TASK_MAX](_ => Task(0, 0));
      ticks, processing := 0, false;
    }

    ghost predicate Valid()
      reads this
    {
      tasks.Length == TASK_MAX && ticks < 0x1_0000_0000
    }

    /** Put a task into the first slot without a pending one; `slot` is the table's size when there is none. */
    method tasks_add(t: Task) returns (slot: nat)
      requires Valid()
      modifies tasks
      ensures slot == FreeSlot(old(tasks[..]), ticks, 0)
      ensures tasks[..] == Add(old(tasks[..]), ticks, t)
      ensures slot <= TASK_MAX && forall i | 0 <= i < slot :: old(tasks[i].when) > ticks
      ensures slot < TASK_MAX ==> old(tasks[..])[slot].when <= ticks && tasks[slot] == t
      ensures forall i | 0 <= i < TASK_MAX && i != slot :: tasks[i] == old(tasks[i])
    {
      slot := 0;
      while slot < TASK_MAX
        invariant slot <= TASK_MAX
        invariant FreeSlot(tasks[..], ticks, slot) == FreeSlot(tasks[..], ticks, 0)
        invariant tasks[..] == old(tasks[..])
      {
        if tasks[slot].when <= ticks {
          tasks[slot] := t;
          return;
        }
        slot := slot + 1;
      }
    }

    method tasks_del(slot: nat)
      requires Valid() && slot < TASK_MAX
      modifies tasks
      ensures tasks[..] == old(tasks[..])[slot := Task(0, 0)]
    {
      tasks[slot] := Task(0, 0);
    }

    method tasks_has_pending() returns (b: bool)
      requires Valid()
      ensures b <==> exists i | 0 <= i < TASK_MAX :: tasks[i].when > ticks
    {
      for i := 0 to TASK_MAX
        invariant forall j | 0 <= j < i :: !Pending(tasks[j], ticks)
      {
        if tasks[i].when > ticks {
          return true;
        }
      }
      b := false;
    }

    /** A callback that adds the tasks `us`. */
    method Callback(us: seq<Task>)
      requires Valid()
      modifies tasks
      ensures tasks[..] == AddAll(old(tasks[..]), ticks, us)
    {
      for k := 0 to |us|
        invariant AddAll(tasks[..], ticks, us[k..]) == AddAll(old(tasks[..]), ticks, us)
      {
        assert us[k..][1..] == us[k + 1..];
        var slot := tasks_add(us[k]);
      }
    }

    /** The timer interrupt. A tick that arrives while the last one is still being processed only counts. */
    method AutoReloadMatch(rs: seq<seq<Task>>) returns (called: seq<nat>)
      requires Valid() && ticks + 1 < 0x1_0000_0000 && |rs| == TASK_MAX
      modifies this, tasks
      ensures Valid() && ticks == old(ticks) + 1 && processing == old(processing)
      ensures old(processing) ==> called == [] && tasks[..] == old(tasks[..])
      ensures !old(processing) ==>
                && tasks[..] == TickTable(old(tasks[..]), ticks, rs, 0)
                && called == TickCalls(old(tasks[..]), ticks, rs, 0)
    {
      called := [];
      ticks := ticks + 1;
      if processing {
        return;
      }
      processing := true;
      ghost var before := tasks[..];
      for i := 0 to TASK_MAX
        invariant Valid() && ticks == old(ticks) + 1 && processing
        invariant TickTable(tasks[..], ticks, rs, i) == TickTable(before, ticks, rs, 0)
        invariant called + TickCalls(tasks[..], ticks, rs, i) == TickCalls(before, ticks, rs, 0)
      {
        if tasks[i].when == ticks {
          called := called + [tasks[i].job];
          Callback(rs[i]);
        }
      }
      processing := false;
    }
  }
}
