/** What each step of the scheduler does to the tasks it concerns, and the states get_task_state reports. */
module TaskStates {
  import opened TaskLists
  import opened SchedulerModel
  import opened SchedulerInvariants
  import opened SchedulerRuns

  // ---------------------------------------------------------------- switching

  /** schedule() without a lock runs the first ready task, and puts the caller at the end of the queue as ready. With
      nobody ready it returns at once; under a lock it only leaves a request. */
  lemma YieldExact(ms: seq<Machine>, ops: seq<Op>, i: nat)
    requires Run(ms, ops) && Inv(ms[0]) && i < |ops| && ops[i] == Yield
    ensures var m, w := ms[i], ms[i + 1];
      if m.depth > 0 then w == m.(flag := true)
      else if m.ready == [] then w == m
      else
        w.current == m.ready[0] && w.ready == m.ready[1..] + [m.current] && w.switches == m.switches + 1
        && At(w.state, m.current) == READY && At(w.state, w.current) == RUNNING
  {
    RunInv(ms, ops, i);
    assert IsStep(ms, ops, i);
    if ms[i].depth == 0 && ms[i].ready != [] { SwitchFacts(ms[i]); }
  }

  /** A new task is last in the queue, as ready. */
  lemma CreateExact(ms: seq<Machine>, ops: seq<Op>, i: nat, t: Tid)
    requires Run(ms, ops) && i < |ops| && ops[i] == Created(t)
    ensures ms[i + 1].ready == ms[i].ready + [t] && At(ms[i + 1].state, t) == READY
  {
    assert IsStep(ms, ops, i);
  }

  /** How often the lock was taken, less how often it was given back. */
  function Held(ops: seq<Op>, i: nat): int
    requires i <= |ops|
  {
    if i == 0 then 0
    else Held(ops, i - 1) + if ops[i - 1].Lock? then 1 else if ops[i - 1].Unlocked? then -1 else 0
  }

  lemma DepthStep(m: Machine, op: Op)
    requires Enabled(m, op)
    ensures Next(m, op).depth == m.depth + if op.Lock? then 1 else if op.Unlocked? then -1 else 0
  {
  }

  /** The lock nests: it is as deep as it was taken more often than given back, across all switches. */
  lemma {:induction false} LockNests(ms: seq<Machine>, ops: seq<Op>, i: nat)
    requires Run(ms, ops) && i < |ms|
    ensures ms[i].depth == ms[0].depth + Held(ops, i)
  {
    if i > 0 {
      LockNests(ms, ops, i - 1);
      assert IsStep(ms, ops, i - 1);
      DepthStep(ms[i - 1], ops[i - 1]);
    }
  }

  // ---------------------------------------------------------------- the state of a ready task

  lemma TickReady(m: Machine, t: Tid)
    requires Placed(m) && t in Tick(m).ready
    ensures t in m.ready || At(Tick(m).state, t) == READY
    ensures t in m.ready ==> At(Tick(m).state, t) == At(m.state, t)
  {
    TickState(m, t);
    InPlaces(m, t);
  }

  lemma SwitchReady(m: Machine, site: Resume, t: Tid)
    requires Placed(m) && States(m) && m.ready != [] && CanSwitch(m) && t in SwitchTo(m, site).ready
    ensures t in m.ready || At(SwitchTo(m, site).state, t) == READY
    ensures t in m.ready ==> At(SwitchTo(m, site).state, t) == At(m.state, t)
  {
    SwitchFacts(m);
    InPlaces(m, t);
    assert m.ready == [m.ready[0]] + m.ready[1..];
  }

  /** Whoever joins the queue is ready, and nobody's state changes while in it. */
  ghost predicate ReadyKept(m: Machine, w: Machine, t: Tid) {
    t in w.ready ==> (t !in m.ready && At(w.state, t) == READY) || (t in m.ready && At(w.state, t) == At(m.state, t))
  }

  lemma ScheduleReady(m: Machine, t: Tid)
    requires Placed(m) && States(m) && CanSwitch(m)
    ensures ReadyKept(m, SchedulerModel.Schedule(m, InSchedule), t)
  {
    var w := SchedulerModel.Schedule(m, InSchedule);
    if m.depth == 0 && m.ready != [] && t in w.ready { SwitchReady(m, InSchedule, t); }
  }

  lemma UnlockReady(m: Machine, t: Tid)
    requires Placed(m) && States(m) && m.phase == Normal && m.depth > 0
    ensures ReadyKept(m, Unlock(m), t)
  {
    if m.depth == 1 && m.flag && m.ready != [] {
      var m1 := m.(depth := 0, flag := false);
      LockIrrelevant(m, 0, m.irq, false, m.on);
      if t in SwitchTo(m1, InUnlock).ready { SwitchReady(m1, InUnlock, t); }
    }
  }

  lemma QuietReady(m: Machine, op: Op, t: Tid)
    requires Placed(m) && Enabled(m, op)
    requires op.Lock? || op.Sleep? || op.Terminate? || op.Died? || op.Cleaned? || op.Charged? || op.Created?
    ensures ReadyKept(m, Next(m, op), t)
  {
    InPlaces(m, m.current);
    InPlaces(m, t);
  }

  lemma BlockReady(m: Machine, reason: int, t: Tid)
    requires Enabled(m, Blocked(reason)) && t != m.current
    ensures ReadyKept(m, Block(m, reason), t)
  {
  }

  /** The current task blocks after a tick has already woken it. */
  ghost predicate Overtaken(m: Machine, op: Op, t: Tid) {
    op.Blocked? && m.current == t && t in m.ready
  }

  lemma StepReady(m: Machine, op: Op, t: Tid)
    requires Placed(m) && States(m) && Enabled(m, op) && !Overtaken(m, op, t)
    ensures ReadyKept(m, Next(m, op), t)
  {
    match op
    case Ticked => if t in Tick(m).ready { TickReady(m, t); }
    case Yield | Leave => ScheduleReady(m, t);
    case Unlocked => UnlockReady(m, t);
    case Blocked(reason) => if t != m.current { BlockReady(m, reason, t); }
    case _ => QuietReady(m, op, t);
  }

  /** In every run from boot a ready task has the state READY, unless it was woken while on its way to sleep. */
  lemma {:induction false} ReadyIsReady(ms: seq<Machine>, ops: seq<Op>, boot: Tid, now: int, i: nat, t: Tid)
    requires Run(ms, ops) && boot != NULL && ms[0] == Initial(boot, now) && i < |ms| && t in ms[i].ready
    requires forall k :: 0 <= k < i ==> !Overtaken(ms[k], ops[k], t)
    ensures At(ms[i].state, t) == READY
  {
    if i > 0 {
      InitialInv(boot, now);
      RunInv(ms, ops, i - 1);
      assert IsStep(ms, ops, i - 1);
      StepReady(ms[i - 1], ops[i - 1], t);
      if t in ms[i - 1].ready { ReadyIsReady(ms, ops, boot, now, i - 1, t); }
    }
  }

  // ---------------------------------------------------------------- the last state of a task

  /** Task `t` has come to its end with the state `v`, and is switched away from or about to be. */
  ghost predicate FinalState(m: Machine, t: Tid, v: int) {
    At(m.state, t) == v && v <= 0 && (Gone(m, t) || (t == m.current && m.phase == Exiting && t !in m.ready && t !in m.asleep))
  }

  lemma FinalTick(m: Machine, t: Tid, v: int)
    requires FinalState(m, t, v)
    ensures FinalState(Tick(m), t, v)
  {
    DueLater(m.asleep, m.target, m.now + 1);
    SetAllAt(m.state, Due(m.asleep, m.target, m.now + 1), READY, t);
  }

  lemma FinalSwitch(m: Machine, site: Resume, t: Tid, v: int)
    requires m.ready != [] && FinalState(m, t, v)
    ensures FinalState(SwitchTo(m, site), t, v)
  {
    assert m.ready[0] in m.ready;
  }

  lemma FinalSchedule(m: Machine, t: Tid, v: int)
    requires FinalState(m, t, v)
    ensures FinalState(SchedulerModel.Schedule(m, InSchedule), t, v)
  {
    if m.depth == 0 && m.ready != [] { FinalSwitch(m, InSchedule, t, v); }
  }

  lemma FinalUnlock(m: Machine, t: Tid, v: int)
    requires FinalState(m, t, v) && m.depth > 0
    ensures FinalState(Unlock(m), t, v)
  {
    var m1 := m.(depth := 0, flag := false);
    if m.depth == 1 && m.flag && m.ready != [] { FinalSwitch(m1, InUnlock, t, v); }
  }

  lemma FinalQuiet(m: Machine, op: Op, t: Tid, v: int)
    requires FinalState(m, t, v) && Enabled(m, op) && op != Created(t)
    requires op.Lock? || op.Created? || op.Sleep? || op.Blocked? || op.Charged? || op.Cleaned? || op.Terminate? || op.Died?
    ensures FinalState(Next(m, op), t, v)
  {
  }

  lemma FinalStep(m: Machine, op: Op, t: Tid, v: int)
    requires FinalState(m, t, v) && Enabled(m, op) && op != Created(t)
    ensures FinalState(Next(m, op), t, v)
  {
    match op
    case Ticked => FinalTick(m, t, v);
    case Yield | Leave => FinalSchedule(m, t, v);
    case Unlocked => FinalUnlock(m, t, v);
    case _ => FinalQuiet(m, op, t, v);
  }

  lemma {:induction false} StaysFinal(ms: seq<Machine>, ops: seq<Op>, i: nat, j: nat, t: Tid, v: int)
    requires Run(ms, ops) && i <= j < |ms| && FinalState(ms[i], t, v) && forall k :: i <= k < j ==> ops[k] != Created(t)
    ensures FinalState(ms[j], t, v)
  {
    if i < j {
      StaysFinal(ms, ops, i, j - 1, t, v);
      assert IsStep(ms, ops, j - 1);
      FinalStep(ms[j - 1], ops[j - 1], t, v);
    }
  }

  /** A task that returned from its function is reported DEAD, and one that terminated itself TERMINATED, from then on
      until its control block is used again. */
  lemma LastState(ms: seq<Machine>, ops: seq<Op>, i: nat, j: nat)
    requires Run(ms, ops) && Inv(ms[0]) && i < j < |ms|
    requires ops[i] == Died || (ops[i].Blocked? && ms[i].phase == ExitPushed)
    requires forall k :: i < k < j ==> ops[k] != Created(ms[i].current)
    ensures At(ms[j].state, ms[i].current) == if ops[i] == Died then DEAD else TERMINATED
    ensures forall k :: i < k <= j ==> ms[i].current !in ms[k].ready && ms[i].current !in ms[k].asleep
  {
    RunInv(ms, ops, i);
    assert IsStep(ms, ops, i);
    var t := ms[i].current;
    InPlaces(ms[i], t);
    var v := if ops[i] == Died then DEAD else TERMINATED;
    assert FinalState(ms[i + 1], t, v);
    forall k | i < k <= j ensures t !in ms[k].ready && t !in ms[k].asleep { StaysFinal(ms, ops, i + 1, k, t, v); }
    StaysFinal(ms, ops, i + 1, j, t, v);
  }

  /** A task that sleeps is reported SLEEPING. */
  lemma SleepingState(ms: seq<Machine>, ops: seq<Op>, i: nat, t: Tid)
    requires Run(ms, ops) && Inv(ms[0]) && i < |ms| && t in ms[i].asleep && ms[i].current != t
    ensures At(ms[i].state, t) == SLEEPING
  {
    RunInv(ms, ops, i);
  }
}
