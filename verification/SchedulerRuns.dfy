/** What holds over every run of the scheduler. */
module SchedulerRuns {
  import opened ByteStore
  import opened TaskLists
  import opened SchedulerModel
  import opened SchedulerInvariants

  ghost predicate Run(ms: seq<Machine>, ops: seq<Op>) {
    |ms| == |ops| + 1 && forall i :: 0 <= i < |ops| ==> IsStep(ms, ops, i)
  }

  ghost predicate IsStep(ms: seq<Machine>, ops: seq<Op>, i: nat)
    requires |ms| == |ops| + 1 && i < |ops|
  {
    Enabled(ms[i], ops[i]) && ms[i + 1] == Next(ms[i], ops[i])
  }

  /** What multitasking_initialize sets up: the boot task alone, at time `now`. */
  function Initial(boot: Tid, now: int): Machine {
    Machine(boot, [], [], [], map[boot := RUNNING], map[boot := 0], map[boot := 0], Ids(map[boot := 0], 0),
            0, 0, false, true, now, now, Normal, map[boot := Active], 0, History(boot, [boot], [], [boot], map[boot := 0], 0, now))
  }

  lemma InitialInv(boot: Tid, now: int)
    requires boot != NULL
    ensures Inv(Initial(boot, now))
  {
    var m := Initial(boot, now);
    assert [boot][1..] == [];
    assert Total([boot], m.h.ran) == 0 + Total([], m.h.ran);
  }

  lemma {:induction false} RunInv(ms: seq<Machine>, ops: seq<Op>, i: nat)
    requires Run(ms, ops) && Inv(ms[0]) && i < |ms|
    ensures Inv(ms[i])
  {
    if i > 0 {
      RunInv(ms, ops, i - 1);
      assert IsStep(ms, ops, i - 1);
      StepInv(ms[i - 1], ops[i - 1]);
    }
  }

  // ---------------------------------------------------------------- partition, counters, time

  function One(b: bool): nat {
    if b then 1 else 0
  }

  /** In every reachable state outside the exit windows a control block that was created more often than it was
      cleaned up is in exactly one of current, ready, sleeping and dead, and once only; any other is in none. */
  lemma ExactlyOnePlace(ms: seq<Machine>, ops: seq<Op>, i: nat, t: Tid)
    requires Run(ms, ops) && Inv(ms[0]) && i < |ms| && ms[i].phase == Normal
    ensures var m := ms[i];
            One(t == m.current) + Count(m.ready, t) + Count(m.asleep, t) + Count(m.dead, t)
            == Count(m.h.created, t) - Count(m.h.freed, t) <= 1
  {
    RunInv(ms, ops, i);
    var m := ms[i];
    assert Count(m.h.alive, t) <= 1 && Places(m, t) == Count(m.h.alive, t);
    assert Count(m.h.created, t) == Count(m.h.alive, t) + Count(m.h.freed, t);
  }

  /** The interrupt counter is back at zero exactly when no lock is held and nobody is parked inside
      unlock_scheduler, at every step of every run. */
  lemma CounterZeroIff(ms: seq<Machine>, ops: seq<Op>, i: nat)
    requires Run(ms, ops) && Inv(ms[0]) && i < |ms|
    ensures ms[i].irq == ms[i].depth + Parked(ms[i].ready, ms[i].resume)
    ensures NoneParked([ms[i].current] + ms[i].asleep + ms[i].dead, ms[i].resume)
    ensures ms[i].irq == 0 <==> ms[i].depth == 0 && NoneParked(ms[i].h.alive, ms[i].resume)
  {
    RunInv(ms, ops, i);
    ParkedZeroIff(ms[i].ready, ms[i].resume);
    ParkedAreReady(ms[i]);
  }

  /** Whoever is parked inside unlock_scheduler is on the ready queue. */
  lemma ParkedAreReady(m: Machine)
    requires Placed(m) && Counters(m)
    ensures NoneParked(m.ready, m.resume) <==> NoneParked(m.h.alive, m.resume)
  {
    forall t | t in m.h.alive && IsParked(t, m.resume) ensures t in m.ready { InPlaces(m, t); }
    forall t | t in m.ready ensures t in m.h.alive { InPlaces(m, t); }
  }

  lemma {:induction false} ParkedZeroIff(q: seq<Tid>, resume: map<Tid, Resume>)
    ensures Parked(q, resume) == 0 <==> NoneParked(q, resume)
  {
    if q != [] {
      ParkedZeroIff(q[1..], resume);
      assert q == [q[0]] + q[1..];
      assert q[0] in q;
    }
  }

  /** All ticks since the start have been charged to some task, cleaned up or not, or are owed by the current one;
      and each task was charged exactly for the ticks at which it was current. */
  lemma CpuTimeConserved(ms: seq<Machine>, ops: seq<Op>, i: nat)
    requires Run(ms, ops) && Inv(ms[0]) && i < |ms|
    ensures var m := ms[i]; Total(m.h.alive, m.used) + m.h.retired + (m.now - m.last) == m.now - m.h.since
    ensures var m := ms[i]; forall t :: t in m.h.alive && t != m.current ==> At(m.used, t) == At(m.h.ran, t)
  {
    RunInv(ms, ops, i);
    InPlaces(ms[i], ms[i].current);
    TimeConserved(ms[i], ms[i].h.alive);
    forall t | t in ms[i].h.alive && t != ms[i].current ensures At(ms[i].used, t) == At(ms[i].h.ran, t) { assert Settled(ms[i], t); }
  }

  // ---------------------------------------------------------------- leaving

  /** A task that sleeps, dies or terminates really is switched away from: the aborts behind the
      final schedule() are unreachable. */
  lemma ExitsLeave(ms: seq<Machine>, ops: seq<Op>, i: nat)
    requires Run(ms, ops) && Inv(ms[0]) && i < |ops| && ops[i] == Leave
    ensures var w := ms[i + 1];
            w.current != ms[i].current && [w.current] <= ms[i].ready && w.phase == Normal && w.switches == ms[i].switches + 1
    ensures ms[i].h.root == ms[i + 1].current || ms[i].h.root in ms[i + 1].ready
  {
    RunInv(ms, ops, i);
    RunInv(ms, ops, i + 1);
    assert IsStep(ms, ops, i);
  }

  /** `t` neither runs nor waits nor sleeps. */
  ghost predicate Gone(m: Machine, t: Tid) {
    t != m.current && t !in m.ready && t !in m.asleep
  }

  /** How often `t` is on the dead list or was cleaned up. */
  ghost function Deaths(m: Machine, t: Tid): nat {
    Count(m.dead, t) + Count(m.h.freed, t)
  }

  /** `t` is still gone, and no more often than before. */
  ghost predicate GoneAlike(m: Machine, w: Machine, t: Tid) {
    Gone(w, t) && Deaths(w, t) == Deaths(m, t)
  }

  lemma GoneTick(m: Machine, t: Tid)
    requires Gone(m, t)
    ensures GoneAlike(m, Tick(m), t)
  {
    DueLater(m.asleep, m.target, m.now + 1);
    var due := Due(m.asleep, m.target, m.now + 1);
    assert t !in due && Tick(m).dead == m.dead && Tick(m).h.freed == m.h.freed;
  }

  lemma GoneMore(m: Machine, op: Op, t: Tid)
    requires Gone(m, t) && (op.Cleaned? || op.Terminate? || op.Died?)
    ensures GoneAlike(m, Next(m, op), t)
  {
    CountAppend(m.h.freed, m.dead, t);
    CountAppend([m.current], m.dead, t);
    CountOne(m.current, t);
  }

  lemma GoneSwitch(m: Machine, site: Resume, t: Tid)
    requires m.ready != [] && Gone(m, t)
    ensures GoneAlike(m, SwitchTo(m, site), t)
  {
    assert m.ready[0] in m.ready;
  }

  lemma GoneSchedule(m: Machine, t: Tid)
    requires Gone(m, t)
    ensures GoneAlike(m, SchedulerModel.Schedule(m, InSchedule), t)
  {
    if m.depth == 0 && m.ready != [] { GoneSwitch(m, InSchedule, t); }
  }

  lemma GoneUnlock(m: Machine, t: Tid)
    requires Gone(m, t) && m.depth > 0
    ensures GoneAlike(m, Unlock(m), t)
  {
    var m1 := m.(depth := 0, flag := false);
    assert Gone(m1, t);
    if m.ready != [] { GoneSwitch(m1, InUnlock, t); }
  }

  lemma GoneQuiet(m: Machine, op: Op, t: Tid)
    requires Gone(m, t) && op != Created(t) && (op.Lock? || op.Created? || op.Sleep? || op.Blocked? || op.Charged?)
    ensures GoneAlike(m, Next(m, op), t)
  {
  }

  lemma GoneStep(m: Machine, op: Op, t: Tid)
    requires Enabled(m, op) && Gone(m, t) && op != Created(t)
    ensures GoneAlike(m, Next(m, op), t)
  {
    match op
    case Ticked => GoneTick(m, t);
    case Cleaned | Terminate | Died => GoneMore(m, op, t);
    case Unlocked => GoneUnlock(m, t);
    case Yield | Leave => GoneSchedule(m, t);
    case Lock | Created(_) | Sleep(_) | Blocked(_) | Charged => GoneQuiet(m, op, t);
  }

  lemma {:induction false} StaysGone(ms: seq<Machine>, ops: seq<Op>, i: nat, j: nat, t: Tid)
    requires Run(ms, ops) && i <= j < |ms| && Gone(ms[i], t) && forall k :: i <= k < j ==> ops[k] != Created(t)
    ensures GoneAlike(ms[i], ms[j], t)
  {
    if i < j {
      StaysGone(ms, ops, i, j - 1, t);
      assert IsStep(ms, ops, j - 1);
      GoneStep(ms[j - 1], ops[j - 1], t);
    }
  }

  /** A task on the dead list never runs, waits or sleeps again, and is cleaned up at most once, until its control
      block is used for a new task. */
  lemma DeadForGood(ms: seq<Machine>, ops: seq<Op>, i: nat, j: nat, t: Tid)
    requires Run(ms, ops) && Inv(ms[0]) && i <= j < |ms| && t in ms[i].dead && ms[i].current != t
    requires forall k :: i <= k < j ==> ops[k] != Created(t)
    ensures Gone(ms[j], t)
    ensures Count(ms[j].dead, t) + Count(ms[j].h.freed, t) == 1 + Count(ms[i].h.freed, t)
  {
    RunInv(ms, ops, i);
    InPlaces(ms[i], t);
    StaysGone(ms, ops, i, j, t);
  }

  // ---------------------------------------------------------------- bounded waiting

  /** A step either lets the queue grow at its end, or switches to its first task. */
  lemma QueueStep(m: Machine, op: Op)
    requires Enabled(m, op)
    ensures var w := Next(m, op);
            if w.switches == m.switches then m.ready <= w.ready
            else w.switches == m.switches + 1 && m.ready != [] && w.current == m.ready[0] && m.ready[1..] <= w.ready
  {
  }

  /** A task with `k` others ahead of it moves up one place at each effective switch ... */
  lemma {:induction false} MovesUp(ms: seq<Machine>, ops: seq<Op>, i: nat, j: nat, t: Tid, k: nat)
    requires Run(ms, ops) && i <= j < |ms| && k < |ms[i].ready| && ms[i].ready[k] == t
    ensures ms[i].switches <= ms[j].switches
    ensures var s := ms[j].switches - ms[i].switches; s <= k ==> k - s < |ms[j].ready| && ms[j].ready[k - s] == t
  {
    if i < j {
      MovesUp(ms, ops, i, j - 1, t, k);
      assert IsStep(ms, ops, j - 1);
      QueueStep(ms[j - 1], ops[j - 1]);
    }
  }

  /** ... and becomes current at exactly the (k+1)-th, whatever creations, wake-ups, sleeps and deaths interleave. */
  lemma BoundedWaiting(ms: seq<Machine>, ops: seq<Op>, i: nat, j: nat, t: Tid, k: nat)
    requires Run(ms, ops) && i <= j < |ops| && k < |ms[i].ready| && ms[i].ready[k] == t
    requires ms[j].switches - ms[i].switches == k && ms[j + 1].switches == ms[j].switches + 1
    ensures ms[j + 1].current == t
  {
    MovesUp(ms, ops, i, j, t, k);
    assert IsStep(ms, ops, j);
    QueueStep(ms[j], ops[j]);
  }

  lemma LockedStep(m: Machine, op: Op)
    requires Counters(m) && Enabled(m, op) && m.depth > 0 && Next(m, op).depth > 0
    ensures var w := Next(m, op); w.switches == m.switches && w.current == m.current && (w.flag <==> m.flag || op == Yield)
  {
  }

  lemma LockedAt(ms: seq<Machine>, ops: seq<Op>, k: nat)
    requires Run(ms, ops) && Inv(ms[0]) && k < |ops| && ms[k].depth > 0 && ms[k + 1].depth > 0
    ensures ms[k + 1].switches == ms[k].switches && ms[k + 1].current == ms[k].current
    ensures ms[k + 1].flag <==> ms[k].flag || ops[k] == Yield
  {
    assert Counters(ms[k]) by { RunInv(ms, ops, k); }
    assert IsStep(ms, ops, k);
    LockedStep(ms[k], ops[k]);
  }

  /** While the lock is held nothing is switched; all requests made meanwhile merge into the one flag. */
  lemma {:induction false} RequestsMerge(ms: seq<Machine>, ops: seq<Op>, i: nat, j: nat)
    requires Run(ms, ops) && Inv(ms[0]) && i <= j < |ms| && forall k :: i <= k <= j ==> ms[k].depth > 0
    ensures ms[j].switches == ms[i].switches && ms[j].current == ms[i].current
    ensures ms[j].flag <==> ms[i].flag || exists k :: i <= k < j && ops[k] == Yield
  {
    if i < j {
      RequestsMerge(ms, ops, i, j - 1);
      LockedAt(ms, ops, j - 1);
    }
  }

  /** The outermost unlock honours the pending request exactly once, and leaves none behind. */
  lemma OutermostUnlock(ms: seq<Machine>, ops: seq<Op>, i: nat)
    requires Run(ms, ops) && Inv(ms[0]) && i < |ops| && ops[i] == Unlocked && ms[i].depth == 1
    ensures ms[i + 1].depth == 0 && !ms[i + 1].flag
    ensures ms[i + 1].switches == ms[i].switches + if ms[i].flag && ms[i].ready != [] then 1 else 0
  {
    assert IsStep(ms, ops, i);
    RunInv(ms, ops, i + 1);
  }

  // ---------------------------------------------------------------- sleeping

  lemma Associative(h: seq<Tid>, a: seq<Tid>, b: seq<Tid>)
    ensures h + (a + b) == h + a + b
  {
  }

  lemma {:induction false} DueConcat(p: seq<Tid>, q: seq<Tid>, target: Field, now: int)
    ensures Due(p + q, target, now) == Due(p, target, now) + Due(q, target, now)
  {
    if p == [] {
      assert p + q == q;
    } else {
      DueConcat(p[1..], q, target, now);
      assert (p + q)[1..] == p[1..] + q;
      Associative(if At(target, p[0]) <= now then [p[0]] else [], Due(p[1..], target, now), Due(q, target, now));
    }
  }

  lemma {:induction false} LaterConcat(p: seq<Tid>, q: seq<Tid>, target: Field, now: int)
    ensures Later(p + q, target, now) == Later(p, target, now) + Later(q, target, now)
  {
    if p == [] {
      assert p + q == q;
    } else {
      LaterConcat(p[1..], q, target, now);
      assert (p + q)[1..] == p[1..] + q;
      Associative(if At(target, p[0]) <= now then [] else [p[0]], Later(p[1..], target, now), Later(q, target, now));
    }
  }

  lemma FilterOne(a: Tid, target: Field, now: int)
    ensures Due([a], target, now) == if At(target, a) <= now then [a] else []
    ensures Later([a], target, now) == if At(target, a) <= now then [] else [a]
  {
    assert [a][1..] == [];
  }

  /** A tick splits the sleep list exactly and stably: every sleeper `a` goes one way or the other by its deadline
      alone, and in both parts those before it stay before it and those behind it stay behind it. */
  lemma TickFilters(p: seq<Tid>, a: Tid, r: seq<Tid>, target: Field, now: int)
    ensures Due(p + [a] + r, target, now) == Due(p, target, now) + (if At(target, a) <= now then [a] else []) + Due(r, target, now)
    ensures Later(p + [a] + r, target, now) == Later(p, target, now) + (if At(target, a) <= now then [] else [a]) + Later(r, target, now)
  {
    DueConcat(p + [a], r, target, now);
    DueConcat(p, [a], target, now);
    LaterConcat(p + [a], r, target, now);
    LaterConcat(p, [a], target, now);
    FilterOne(a, target, now);
  }

  lemma SleeperTick(m: Machine, t: Tid)
    requires t in m.asleep
    ensures var w := Tick(m);
            w.target == m.target && w.now == m.now + 1
            && (t in w.asleep <==> At(m.target, t) > w.now) && (t !in w.asleep ==> t in w.ready)
  {
    DueLater(m.asleep, m.target, m.now + 1);
  }

  /** `t` sleeps on with the same deadline, and no time has passed. */
  ghost predicate SleepsOn(m: Machine, w: Machine, t: Tid) {
    At(w.target, t) == At(m.target, t) && w.now == m.now && t in w.asleep
  }

  /** The current task's own steps leave the other sleepers alone. */
  lemma SleeperPush(m: Machine, op: Op, t: Tid)
    requires t in m.asleep && (op.Sleep? ==> t != m.current) && (op.Sleep? || op.Terminate? || op.Died? || op.Cleaned?)
    ensures SleepsOn(m, Next(m, op), t)
  {
  }

  lemma SleeperSchedule(m: Machine, site: Resume, t: Tid)
    requires t in m.asleep
    ensures SleepsOn(m, SchedulerModel.Schedule(m, site), t)
  {
  }

  lemma SleeperUnlock(m: Machine, t: Tid)
    requires t in m.asleep && m.depth > 0
    ensures SleepsOn(m, Unlock(m), t)
  {
  }

  lemma SleeperQuiet(m: Machine, op: Op, t: Tid)
    requires t in m.asleep && op != Created(t) && (op.Lock? || op.Created? || op.Blocked? || op.Charged?)
    ensures SleepsOn(m, Next(m, op), t)
  {
  }

  lemma SleeperOther(m: Machine, op: Op, t: Tid)
    requires t in m.asleep && op != Ticked && op != Created(t) && (op.Unlocked? ==> m.depth > 0) && (op.Sleep? ==> t != m.current)
    ensures SleepsOn(m, Next(m, op), t)
  {
    match op
    case Sleep(_) | Terminate | Died | Cleaned => SleeperPush(m, op, t);
    case Yield | Leave => SleeperSchedule(m, InSchedule, t);
    case Unlocked => SleeperUnlock(m, t);
    case Lock | Created(_) | Blocked(_) | Charged => SleeperQuiet(m, op, t);
  }

  /** What a single step can do to a sleeper. */
  lemma SleeperStep(m: Machine, op: Op, t: Tid)
    requires Placed(m) && Enabled(m, op) && t in m.asleep
    ensures var w := Next(m, op);
            At(w.target, t) == At(m.target, t) && w.now == m.now + (if op == Ticked then 1 else 0)
            && (t in w.asleep <==> !(op == Ticked && At(m.target, t) <= w.now)) && (t !in w.asleep ==> t in w.ready)
  {
    if op == Ticked {
      SleeperTick(m, t);
    } else {
      InPlaces(m, t);
      SleeperOther(m, op, t);
    }
  }

  lemma SleeperAt(ms: seq<Machine>, ops: seq<Op>, k: nat, t: Tid)
    requires Run(ms, ops) && Inv(ms[0]) && k < |ops| && t in ms[k].asleep
    ensures var m, w := ms[k], ms[k + 1];
            At(w.target, t) == At(m.target, t) && w.now == m.now + (if ops[k] == Ticked then 1 else 0)
            && (t in w.asleep <==> !(ops[k] == Ticked && At(m.target, t) <= w.now)) && (t !in w.asleep ==> t in w.ready)
  {
    RunInv(ms, ops, k);
    assert IsStep(ms, ops, k);
    SleeperStep(ms[k], ops[k], t);
  }

  /** A task that has slept from `i` to `j` has seen no tick at or after its deadline ... */
  lemma {:induction false} NotLate(ms: seq<Machine>, ops: seq<Op>, i: nat, j: nat, t: Tid)
    requires Run(ms, ops) && Inv(ms[0]) && i <= j < |ms| && forall k :: i <= k <= j ==> t in ms[k].asleep
    ensures At(ms[j].target, t) == At(ms[i].target, t)
    ensures ms[j].now == ms[i].now || ms[i].now < ms[j].now < At(ms[i].target, t)
  {
    if i < j {
      NotLate(ms, ops, i, j - 1, t);
      assert t in ms[j - 1].asleep && t in ms[j].asleep;
      SleeperAt(ms, ops, j - 1, t);
    }
  }

  /** ... and the step that takes it off the sleep list is a tick at or after its deadline, the first such one;
      it is then ready. */
  lemma WokenOnTime(ms: seq<Machine>, ops: seq<Op>, i: nat, j: nat, t: Tid)
    requires Run(ms, ops) && Inv(ms[0]) && i <= j < |ops| && (forall k :: i <= k <= j ==> t in ms[k].asleep) && t !in ms[j + 1].asleep
    ensures ops[j] == Ticked && t in ms[j + 1].ready && ms[j + 1].now == ms[j].now + 1
    ensures At(ms[i].target, t) <= ms[j + 1].now
    ensures ms[j].now == ms[i].now || ms[j].now < At(ms[i].target, t)
  {
    NotLate(ms, ops, i, j, t);
    assert t in ms[j].asleep;
    SleeperAt(ms, ops, j, t);
  }

  lemma NowStep(m: Machine, op: Op)
    requires Enabled(m, op)
    ensures Next(m, op).now == m.now + if op == Ticked then 1 else 0
  {
  }

  lemma {:induction false} NowGrows(ms: seq<Machine>, ops: seq<Op>, i: nat, j: nat)
    requires Run(ms, ops) && i <= j < |ms|
    ensures ms[i].now <= ms[j].now
  {
    if i < j {
      NowGrows(ms, ops, i, j - 1);
      assert IsStep(ms, ops, j - 1);
      NowStep(ms[j - 1], ops[j - 1]);
    }
  }

  /** After step `i`, in which task `t` asked to sleep until `until`, no tick before step `j` has been due. */
  ghost predicate NoDueTick(ms: seq<Machine>, ops: seq<Op>, i: nat, j: nat, until: int)
    requires Run(ms, ops) && i < j < |ms|
  {
    forall k :: i < k < j && ops[k] == Ticked ==> ms[k].now + 1 < until
  }

  lemma AskedToSleep(ms: seq<Machine>, ops: seq<Op>, i: nat, until: int)
    requires Run(ms, ops) && i < |ops| && ops[i] == Sleep(until)
    ensures ms[i].current in ms[i + 1].asleep && At(ms[i + 1].target, ms[i].current) == until
  {
    assert IsStep(ms, ops, i);
  }

  lemma {:induction false} SleepsUntil(ms: seq<Machine>, ops: seq<Op>, i: nat, j: nat, until: int)
    requires Run(ms, ops) && Inv(ms[0]) && i < j < |ms| && ops[i] == Sleep(until) && NoDueTick(ms, ops, i, j, until)
    ensures ms[i].current in ms[j].asleep && At(ms[j].target, ms[i].current) == until
  {
    if j == i + 1 {
      AskedToSleep(ms, ops, i, until);
    } else {
      SleepsUntil(ms, ops, i, j - 1, until);
      SleeperAt(ms, ops, j - 1, ms[i].current);
    }
  }

  /** The time of the first tick after `now` that is at or after `until`. */
  function FirstTick(now: int, until: int): int {
    if until <= now then now + 1 else until
  }

  /** A task that asks to sleep until `until` sleeps through every step up to the first tick at or after that time,
      whatever others do, and that tick makes it ready. */
  lemma SleepExact(ms: seq<Machine>, ops: seq<Op>, i: nat, j: nat, until: int)
    requires Run(ms, ops) && Inv(ms[0]) && i < j < |ops| && ops[i] == Sleep(until)
    requires ops[j] == Ticked && ms[j].now + 1 == FirstTick(ms[i].now, until)
    ensures forall k :: i < k <= j ==> ms[i].current in ms[k].asleep
    ensures ms[i].current !in ms[j + 1].asleep && ms[i].current in ms[j + 1].ready
  {
    forall k | i < k <= j ensures ms[i].current in ms[k].asleep {
      NoneBefore(ms, ops, i, k, j, until);
      SleepsUntil(ms, ops, i, k, until);
    }
    NoneBefore(ms, ops, i, j, j, until);
    SleepsUntil(ms, ops, i, j, until);
    SleeperAt(ms, ops, j, ms[i].current);
  }

  lemma NoneBefore(ms: seq<Machine>, ops: seq<Op>, i: nat, k: nat, j: nat, until: int)
    requires Run(ms, ops) && i < k <= j < |ops| && ms[j].now + 1 == FirstTick(ms[i].now, until)
    ensures NoDueTick(ms, ops, i, k, until)
  {
    forall l | i < l < k && ops[l] == Ticked ensures ms[l].now + 1 < until {
      assert IsStep(ms, ops, l);
      NowStep(ms[l], ops[l]);
      NowGrows(ms, ops, i, l);
      NowGrows(ms, ops, l + 1, j);
    }
  }

  /** micro_sleep hands the deadline on as a 32-bit value. */
  function Deadline(now: nat, microSeconds: nat): nat {
    (now + microSeconds) % WORD
  }

  /** A sleep ends at the right tick exactly when the deadline fits in 32 bits, or asks for no more than
      the very next tick; otherwise the sleeper is woken at once. */
  lemma DeadlineExactIff(now: nat, microSeconds: nat)
    requires microSeconds < WORD
    ensures FirstTick(now, Deadline(now, microSeconds)) == FirstTick(now, now + microSeconds)
            <==> now + microSeconds < WORD || microSeconds <= 1
    ensures now + microSeconds >= WORD ==> FirstTick(now, Deadline(now, microSeconds)) == now + 1
  {
    var d := Deadline(now, microSeconds);
    if now + microSeconds >= WORD {
      assert d <= now;
    }
  }

  /** A micro_sleep lasts until the first tick at or after the time it was asked to last to, as long as that time
      fits in 32 bits; otherwise until the very next tick. */
  lemma MicroSleepExact(ms: seq<Machine>, ops: seq<Op>, i: nat, j: nat, microSeconds: nat)
    requires Run(ms, ops) && Inv(ms[0]) && i < j < |ops| && 0 <= ms[i].now && microSeconds < WORD
    requires ops[i] == Sleep(Deadline(ms[i].now, microSeconds)) && ops[j] == Ticked
    requires var end := ms[i].now + microSeconds;
      ms[j].now + 1 == if end < WORD then FirstTick(ms[i].now, end) else ms[i].now + 1
    ensures forall k :: i < k <= j ==> ms[i].current in ms[k].asleep
    ensures ms[i].current !in ms[j + 1].asleep && ms[i].current in ms[j + 1].ready
  {
    DeadlineExactIff(ms[i].now, microSeconds);
    SleepExact(ms, ops, i, j, Deadline(ms[i].now, microSeconds));
  }

  // ---------------------------------------------------------------- the window inside block_task

  /** schedule() on the real queue: take the first task, and append the current one if its state says so. */
  function QueueAfter(u: Queue, m: Machine): Queue
    requires u.first in u.next
  {
    if Requeues(m) then Push(Pop(u), m.current) else Pop(u)
  }

  /** `u` is a proper queue in which everyone of `q` still waits. */
  ghost predicate Holds(u: Queue, q: seq<Tid>) {
    exists s :: IsQueue(u, s) && forall t :: t in q ==> t in s
  }

  /** After the wake-up the current task is queued behind another one, and its state says it can run. */
  lemma WokenInWindow(m: Machine)
    requires Inv(m) && m.phase == SleepBlocked && m.current in m.asleep && At(m.target, m.current) <= m.now + 1
    ensures var w := Tick(m); w.ready != [] && Requeues(w) && w.current in w.ready[1..] && NoDup(w.ready[1..])
  {
    var w, due := Tick(m), Due(m.asleep, m.target, m.now + 1);
    TickPlaced(m);
    DueLater(m.asleep, m.target, m.now + 1);
    SetAllAt(m.state, due, READY, m.current);
    assert m.ready != [] && w.ready[0] == m.ready[0] != m.current && m.current in w.ready;
    assert w.ready == [w.ready[0]] + w.ready[1..];
    forall t ensures Count(w.ready, t) <= 1 { InPlaces(w, t); }
    TailNoDup(w.ready);
  }

  lemma NotWokenInWindow(m: Machine)
    requires Inv(m) && m.phase == SleepBlocked && m.current in m.asleep && At(m.target, m.current) > m.now + 1
    ensures Tick(m).ready != [] && !Requeues(Tick(m))
  {
    DueLater(m.asleep, m.target, m.now + 1);
    SetAllAt(m.state, Due(m.asleep, m.target, m.now + 1), READY, m.current);
  }

  /** Between block_task's unlock and its schedule() (task.c:58-59) interrupts are on. A tick there is harmless
      exactly if it does not wake the task that is about to switch away: if it does, schedule() appends to the
      ready queue a task that is already in it, and the queue becomes a cycle or loses those behind. */
  lemma BlockWindowSafeIff(m: Machine, u: Queue)
    requires Inv(m) && m.phase == SleepBlocked && m.current in m.asleep && IsQueue(u, Tick(m).ready) && u.first in u.next
    ensures Tick(m).ready != []
    ensures Holds(QueueAfter(u, Tick(m)), Tick(m).ready[1..]) <==> At(m.target, m.current) > m.now + 1
  {
    var w := Tick(m);
    assert w.ready != [] by { assert m.ready != [] && w.ready[0] == m.ready[0]; }
    PopOk(u, w.ready);
    if At(m.target, m.current) > m.now + 1 {
      NotWokenInWindow(m);
      assert IsQueue(QueueAfter(u, w), w.ready[1..]);
    } else {
      WokenInWindow(m);
      forall s | forall t :: t in w.ready[1..] ==> t in s ensures !IsQueue(QueueAfter(u, w), s) {
        DoublePushCorrupts(Pop(u), w.ready[1..], w.current, s);
      }
    }
  }

  /** The state in which a tick does that harm. */
  ghost predicate Exposed(m: Machine) {
    m.phase == SleepBlocked && m.current in m.asleep && At(m.target, m.current) <= m.now + 1
  }

  /** A run from boot ends in `m`. */
  ghost predicate Reached(ms: seq<Machine>, ops: seq<Op>, boot: Tid, now: int, m: Machine) {
    Run(ms, ops) && ms[0] == Initial(boot, now) && ms[|ops|] == m
  }

  ghost predicate Reachable(boot: Tid, now: int, m: Machine) {
    exists ms, ops :: Reached(ms, ops, boot, now, m)
  }

  lemma ReachInitial(boot: Tid, now: int)
    ensures Reachable(boot, now, Initial(boot, now))
  {
    assert Reached([Initial(boot, now)], [], boot, now, Initial(boot, now));
  }

  lemma ReachNext(boot: Tid, now: int, m: Machine, op: Op)
    requires Reachable(boot, now, m) && Enabled(m, op)
    ensures Reachable(boot, now, Next(m, op))
  {
    var ms, ops :| Reached(ms, ops, boot, now, m);
    var ms2, ops2 := ms + [Next(m, op)], ops + [op];
    forall i: nat | i < |ops2| ensures IsStep(ms2, ops2, i) {
      if i < |ops| { assert IsStep(ms, ops, i); }
    }
    assert Reached(ms2, ops2, boot, now, Next(m, op));
  }

  /** The first task after boot runs. */
  lemma TaskStarted(boot: Tid, t: Tid, now: int) returns (m: Machine)
    requires boot != NULL && t != NULL && t != boot
    ensures Reachable(boot, now, m) && m.phase == Normal && m.depth == 0 && m.irq == 0 && !m.flag && m.on
    ensures m.current == t && m.ready == [boot] && m.asleep == m.dead == [] && ResumeOf(m, boot) == InSchedule
    ensures m.h.root == boot && m.h.created == [boot, t] && m.h.freed == []
  {
    var m0 := Initial(boot, now);
    var m1 := Create(m0, t);
    ReachInitial(boot, now);
    ReachNext(boot, now, m0, Created(t));
    ReachNext(boot, now, m1, Yield);
    m := SwitchTo(m1, InSchedule);
  }

  /** Four steps after boot: a task is created, runs, asks to sleep until the next tick, and blocks, with
      interrupts on. */
  lemma ExposedReached(boot: Tid, t: Tid, now: int)
    requires boot != NULL && t != NULL && t != boot
    ensures exists m :: Reachable(boot, now, m) && Exposed(m) && m.on
  {
    var m2 := TaskStarted(boot, t, now);
    var m3 := PushAsleep(m2, m2.now + 1);
    ReachNext(boot, now, m2, Sleep(m2.now + 1));
    ReachNext(boot, now, m3, Blocked(SLEEPING));
    assert Exposed(Block(m3, SLEEPING)) && Block(m3, SLEEPING).on;
  }

  /** The first task after boot has lived and died. */
  lemma DeadReached(boot: Tid, t: Tid, now: int) returns (m: Machine)
    requires boot != NULL && t != NULL && t != boot
    ensures Reachable(boot, now, m) && m.phase == Normal && m.current == boot
    ensures m.ready == m.asleep == [] && m.dead == [t] && m.h.created == [boot, t] && m.h.freed == []
  {
    var m2 := TaskStarted(boot, t, now);
    var m3 := Die(m2);
    ReachNext(boot, now, m2, Died);
    ReachNext(boot, now, m3, Leave);
    m := SwitchTo(m3, InSchedule);
  }

  /** A control block that was cleaned up is used for the next task: the same address is created twice. */
  lemma AddressReused(boot: Tid, t: Tid, now: int)
    requires boot != NULL && t != NULL && t != boot
    ensures exists m :: Reachable(boot, now, m) && Count(m.h.created, t) == 2 && Count(m.h.freed, t) == 1
  {
    var m := DeadReached(boot, t, now);
    var w := Cleanup(m);
    ReachNext(boot, now, m, Cleaned);
    ReachNext(boot, now, w, Created(t));
    Twice(boot, t);
    CountOne(t, t);
    var v := Create(w, t);
    assert v.h.created == [boot, t] + [t] && v.h.freed == [] + [t] == [t];
  }

  lemma Twice(boot: Tid, t: Tid)
    requires t != boot
    ensures Count([boot, t] + [t], t) == 2
  {
    CountAppend([boot, t], [t], t);
    CountAppend([boot], [t], t);
    CountOne(t, t);
    CountOne(boot, t);
    assert [boot, t] == [boot] + [t];
  }

  /** What the kernel's main loop relies on: the state of a task is positive exactly until it has died. */
  lemma StatePositiveIff(m: Machine, t: Tid)
    requires Inv(m) && m.phase == Normal && t in m.h.alive
    ensures At(m.state, t) > 0 <==> t !in m.dead
  {
    InPlaces(m, t);
    assert Places(m, t) == Count(m.h.alive, t);
  }
}
