/** When interrupts are really on. The flag belongs to the processor, not to a task: cli and sti in the scheduler
    follow a counter, and a switch leaves the flag as it is, except where the task switched to executes sti. */
module InterruptFlag {
  import opened TaskLists
  import opened SchedulerModel
  import opened SchedulerInvariants
  import opened SchedulerRuns

  /** The step switches to a task that runs for the first time. */
  ghost predicate Starts(m: Machine, op: Op) {
    m.ready != [] && ResumeOf(m, m.ready[0]) == NotStarted && (op.Unlocked? ==> m.depth > 0) && Next(m, op).switches > m.switches
  }

  /** The steps that do not touch the lock. */
  ghost predicate Lockless(op: Op) {
    op.Yield? || op.Leave? || op.Ticked? || op.Charged?
  }

  ghost function Starting(ms: seq<Machine>, ops: seq<Op>): (r: seq<bool>)
    requires |ms| == |ops| + 1
    ensures |r| == |ops| && forall k :: 0 <= k < |ops| ==> r[k] == Starts(ms[k], ops[k])
  {
    seq(|ops|, k requires 0 <= k < |ops| => Starts(ms[k], ops[k]))
  }

  ghost predicate AllLockless(ops: seq<Op>, k: nat, i: nat)
    requires i <= |ops|
  {
    forall j :: k < j < i ==> Lockless(ops[j])
  }

  /** One of the first `i` steps was a start, and nobody has taken the lock since. */
  ghost predicate Since(starts: seq<bool>, ops: seq<Op>, i: nat)
    requires |starts| == |ops| && i <= |ops|
  {
    exists k :: 0 <= k < i && starts[k] && AllLockless(ops, k, i)
  }

  ghost predicate StartedSince(ms: seq<Machine>, ops: seq<Op>, i: nat)
    requires |ms| == |ops| + 1 && i < |ms|
  {
    Since(Starting(ms, ops), ops, i)
  }

  lemma BriefFlag(m: Machine, op: Op)
    requires Enabled(m, op) && (op.Created? || op.Sleep? || op.Terminate? || op.Died? || op.Blocked? || op.Cleaned?)
    ensures var w := Next(m, op); w.on == (w.irq == 0) && w.irq == m.irq && w.depth == m.depth && w.switches == m.switches
  {
  }

  /** `started`: some task started and nobody has taken the lock since. */
  ghost predicate FlagIs(m: Machine, started: bool) {
    m.on <==> m.depth == 0 && (m.irq == 0 || started)
  }

  lemma SwitchFlag(m: Machine, site: Resume)
    requires m.ready != []
    ensures var w, r := SwitchTo(m, site), ResumeOf(m, m.ready[0]);
      && w.switches == m.switches + 1 && w.depth == m.depth && w.irq == m.irq - (if r == InUnlock then 1 else 0)
      && w.on == (m.on || r == NotStarted || (r == InUnlock && m.irq == 1))
  {
  }

  lemma CountedParked(m: Machine)
    requires Counters(m)
    ensures m.irq >= m.depth && (m.ready != [] && ResumeOf(m, m.ready[0]) == InUnlock ==> m.irq > m.depth)
  {
  }

  lemma UnlockFlag(m: Machine)
    requires Counters(m) && m.depth > 0 && !m.on
    ensures FlagIs(Unlock(m), Starts(m, Unlocked))
  {
    CountedParked(m);
    if m.depth == 1 && m.flag && m.ready != [] { SwitchFlag(m.(depth := 0, flag := false), InUnlock); }
  }

  lemma ScheduleFlag(m: Machine, op: Op, started: bool)
    requires Counters(m) && (op.Yield? || op.Leave?) && FlagIs(m, started)
    ensures FlagIs(Next(m, op), Starts(m, op) || started)
  {
    CountedParked(m);
    if m.depth == 0 && m.ready != [] { SwitchFlag(m, InSchedule); }
  }

  lemma StepFlag(m: Machine, op: Op, started: bool)
    requires Counters(m) && Enabled(m, op) && FlagIs(m, started)
    ensures FlagIs(Next(m, op), Starts(m, op) || (started && Lockless(op)))
  {
    match op
    case Unlocked => UnlockFlag(m);
    case Yield | Leave => ScheduleFlag(m, op, started);
    case Lock | Ticked | Charged =>
    case _ =>
      CountedParked(m);
      BriefFlag(m, op);
  }

  lemma SinceNext(starts: seq<bool>, ops: seq<Op>, i: nat)
    requires |starts| == |ops| && i < |ops|
    ensures Since(starts, ops, i + 1) <==> starts[i] || (Since(starts, ops, i) && Lockless(ops[i]))
  {
    assert AllLockless(ops, i, i + 1);
    if Since(starts, ops, i) && Lockless(ops[i]) {
      var k :| 0 <= k < i && starts[k] && AllLockless(ops, k, i);
      assert AllLockless(ops, k, i + 1);
    }
    if Since(starts, ops, i + 1) && !starts[i] {
      var k :| 0 <= k < i + 1 && starts[k] && AllLockless(ops, k, i + 1);
      assert k < i && Lockless(ops[i]) && AllLockless(ops, k, i);
    }
  }

  /** In every run from boot interrupts are on exactly if no lock is held and either nobody is parked inside
      unlock_scheduler (the counter is then 0), or some task was started and the lock has not been taken since. */
  lemma OnIff(ms: seq<Machine>, ops: seq<Op>, boot: Tid, now: int, i: nat)
    requires Run(ms, ops) && boot != NULL && ms[0] == Initial(boot, now) && i < |ms|
    ensures ms[i].on <==> ms[i].depth == 0 && (NoneParked(ms[i].h.alive, ms[i].resume) || StartedSince(ms, ops, i))
  {
    FlagAt(ms, ops, boot, now, i);
    InitialInv(boot, now);
    CounterZeroIff(ms, ops, i);
  }

  lemma {:induction false} FlagAt(ms: seq<Machine>, ops: seq<Op>, boot: Tid, now: int, i: nat)
    requires Run(ms, ops) && boot != NULL && ms[0] == Initial(boot, now) && i < |ms|
    ensures FlagIs(ms[i], StartedSince(ms, ops, i))
  {
    if i > 0 {
      FlagAt(ms, ops, boot, now, i - 1);
      InitialInv(boot, now);
      RunInv(ms, ops, i - 1);
      FlagNext(ms, ops, i - 1);
    }
  }

  lemma FlagNext(ms: seq<Machine>, ops: seq<Op>, i: nat)
    requires Run(ms, ops) && i < |ops| && Inv(ms[i]) && FlagIs(ms[i], StartedSince(ms, ops, i))
    ensures FlagIs(ms[i + 1], StartedSince(ms, ops, i + 1))
  {
    assert IsStep(ms, ops, i);
    SinceNext(Starting(ms, ops), ops, i);
    StepFlag(ms[i], ops[i], StartedSince(ms, ops, i));
  }

  /** Task `t` waits for its first run. */
  ghost predicate Unstarted(m: Machine, t: Tid) {
    t != m.current && ResumeOf(m, t) == NotStarted
  }

  /** Until it is switched to it still does. */
  ghost predicate StartsOrWaits(m: Machine, w: Machine, t: Tid) {
    if w.current == t then w.on else Unstarted(w, t)
  }

  lemma ScheduleStarts(m: Machine, t: Tid)
    requires Unstarted(m, t)
    ensures StartsOrWaits(m, SchedulerModel.Schedule(m, InSchedule), t)
  {
  }

  lemma UnlockStarts(m: Machine, t: Tid)
    requires Unstarted(m, t) && m.depth > 0
    ensures StartsOrWaits(m, Unlock(m), t)
  {
  }

  lemma QuietStarts(m: Machine, op: Op, t: Tid)
    requires Unstarted(m, t) && op != Created(t) && !op.Yield? && !op.Leave? && !op.Unlocked?
    ensures StartsOrWaits(m, Next(m, op), t)
  {
  }

  lemma StepStarts(m: Machine, op: Op, t: Tid)
    requires Enabled(m, op) && Unstarted(m, t) && op != Created(t)
    ensures StartsOrWaits(m, Next(m, op), t)
  {
    match op
    case Yield | Leave => ScheduleStarts(m, t);
    case Unlocked => UnlockStarts(m, t);
    case _ => QuietStarts(m, op, t);
  }

  lemma {:induction false} WaitsToStart(ms: seq<Machine>, ops: seq<Op>, i: nat, j: nat, t: Tid)
    requires Run(ms, ops) && i < j < |ms| && ops[i] == Created(t)
    requires forall k :: i < k < j ==> ops[k] != Created(t) && ms[k].current != t
    ensures StartsOrWaits(ms[j - 1], ms[j], t)
  {
    assert IsStep(ms, ops, j - 1);
    if j == i + 1 {
      assert ms[j].current == ms[i].current != t && ResumeOf(ms[j], t) == NotStarted;
    } else {
      WaitsToStart(ms, ops, i, j - 1, t);
      StepStarts(ms[j - 1], ops[j - 1], t);
    }
  }

  /** A task that runs for the first time has interrupts on, whoever switched to it and however. */
  lemma FirstRunOn(ms: seq<Machine>, ops: seq<Op>, i: nat, j: nat, t: Tid)
    requires Run(ms, ops) && i < j < |ms| && ops[i] == Created(t) && ms[j].current == t
    requires forall k :: i < k < j ==> ops[k] != Created(t) && ms[k].current != t
    ensures ms[j].on
  {
    WaitsToStart(ms, ops, i, j, t);
  }

  /** Five steps after boot a task runs outside any lock with interrupts off: a second task was created, started,
      and parked inside unlock_scheduler by a request made under its lock. */
  lemma DeafReached(boot: Tid, t: Tid, now: int)
    requires boot != NULL && t != NULL && t != boot
    ensures exists m :: Reachable(boot, now, m) && Deaf(m)
  {
    var m2 := TaskStarted(boot, t, now);
    var m3 := Locked(m2);
    var m4 := m3.(flag := true);
    ReachNext(boot, now, m2, Lock);
    ReachNext(boot, now, m3, Yield);
    ReachNext(boot, now, m4, Unlocked);
    assert Deaf(Unlock(m4));
  }

  ghost predicate Deaf(m: Machine) {
    m.phase == Normal && m.depth == 0 && !m.on
  }
}
