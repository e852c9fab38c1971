/** Whatever the tasks and the timer do to the scheduler's data is a run of the machine. */
module SchedulerClients {
  import opened ByteStore
  import opened TaskLists
  import opened SchedulerModel
  import opened SchedulerInvariants
  import opened SchedulerRuns
  import opened TaskIds
  import opened Scheduler

  /** The C functions the current task calls, or is interrupted by, one for each step of the machine. */
  method Perform(s: Scheduler, op: Op)
    requires s.Valid() && Enabled(s.View(), op)
    modifies s
    ensures s.Rep() && s.View() == Next(old(s.View()), op)
  {
    match op
    case Lock => s.LockScheduler();
    case Unlocked => s.UnlockScheduler();
    case Yield | Leave => s.Schedule(InSchedule);
    case Created(t) => s.CreateKernelTask(t);
    case Sleep(until) => s.MicroSleepUntil(until);
    case Terminate => s.TerminateTask();
    case Died => s.MarkTaskForDeath();
    case Blocked(reason) => s.BlockTask(reason);
    case Cleaned => s.DeadTasksCleanup();
    case Ticked => s.TimerTick();
    case Charged => s.UpdateTimeUsed();
  }

  /** Afterwards the lists are proper lists again, `last` is the true tail, and all invariants hold. */
  method Do(s: Scheduler, op: Op)
    requires s.Valid() && Enabled(s.View(), op)
    modifies s
    ensures s.Valid() && s.View() == Next(old(s.View()), op)
  {
    StepInv(s.View(), op);
    Perform(s, op);
  }

  /** The steps of `ops` can happen one after the other. */
  ghost predicate Possible(m: Machine, ops: seq<Op>)
    decreases |ops|
  {
    ops == [] || (Enabled(m, ops[0]) && Possible(Next(m, ops[0]), ops[1..]))
  }

  ghost predicate Ends(ms: seq<Machine>, ops: seq<Op>, m: Machine, w: Machine) {
    Run(ms, ops) && ms[0] == m && ms[|ops|] == w
  }

  lemma RunOn(ms: seq<Machine>, ops: seq<Op>, m: Machine, w: Machine, op: Op)
    requires Ends(ms, ops, m, w) && Enabled(w, op)
    ensures Ends(ms + [Next(w, op)], ops + [op], m, Next(w, op))
  {
    var ms2, ops2 := ms + [Next(w, op)], ops + [op];
    forall i: nat | i < |ops2| ensures IsStep(ms2, ops2, i) {
      if i < |ops| { assert IsStep(ms, ops, i); }
    }
  }

  /** Any sequence of steps on the real lists and counters is a run of the machine, and they are sound at its end. */
  method DoAll(s: Scheduler, ops: seq<Op>) returns (ghost ms: seq<Machine>)
    requires s.Valid() && Possible(s.View(), ops)
    modifies s
    ensures s.Valid() && Ends(ms, ops, old(s.View()), s.View())
  {
    ms := [s.View()];
    assert ops[..0] == [] && ops[0..] == ops;
    for i := 0 to |ops|
      invariant s.Valid() && Ends(ms, ops[..i], old(s.View()), s.View()) && Possible(s.View(), ops[i..])
    {
      assert ops[i..][0] == ops[i] && ops[i..][1..] == ops[i + 1..] && ops[..i + 1] == ops[..i] + [ops[i]];
      RunOn(ms, ops[..i], old(s.View()), s.View(), ops[i]);
      Do(s, ops[i]);
      ms := ms + [s.View()];
    }
    assert ops[..|ops|] == ops;
  }

  /** What the kernel's main loop waits for: after any steps from boot get_task_state gives the state of a task with
      that id, wherever it is, or -1 if there is none; and there is only one such task as long as no more than 2^32
      have been created. */
  method StateAfter(boot: Tid, now: int, ops: seq<Op>, pid: int) returns (s: Scheduler, r: int)
    requires boot != NULL && Possible(Initial(boot, now), ops)
    ensures fresh(s) && s.Valid() && exists ms :: Ends(ms, ops, Initial(boot, now), s.View())
    ensures (forall t :: t in s.history.alive ==> At(s.id, t) != pid) ==> r == -1
    ensures (exists t :: t in s.history.alive && At(s.id, t) == pid) ==> Answers(s.View(), pid, r)
    ensures |s.history.created| <= WORD ==> forall t :: t in s.history.alive && At(s.id, t) == pid ==> r == At(s.state, t)
  {
    s := new Scheduler(boot, now);
    ghost var ms := DoAll(s, ops);
    assert Ends(ms, ops, Initial(boot, now), s.View());
    InitialSound(boot, now);
    RunSound(ms, ops, |ops|);
    r := s.GetTaskState(pid);
  }
}
