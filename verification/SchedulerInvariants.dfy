/** The invariants of the scheduler and the proof that every step keeps them. */
module SchedulerInvariants {
  import opened TaskLists
  import opened SchedulerModel

  // ---------------------------------------------------------------- interrupt counter

  ghost predicate IsParked(t: Tid, resume: map<Tid, Resume>) {
    t in resume && resume[t] == InUnlock
  }

  /** How many tasks of `q` are parked inside unlock_scheduler. */
  ghost function Parked(q: seq<Tid>, resume: map<Tid, Resume>): nat {
    if q == [] then 0 else (if IsParked(q[0], resume) then 1 else 0) + Parked(q[1..], resume)
  }

  /** IRQ_disable_counter is the lock depth plus the number of tasks parked inside unlock_scheduler,
      and no request to switch is pending once the lock is free. */
  ghost predicate Counters(m: Machine) {
    && m.irq == m.depth + Parked(m.ready, m.resume)
    && (m.depth == 0 ==> !m.flag)
    && (m.phase != Normal ==> m.depth == 0)
    && ResumeOf(m, m.current) == Active
    && NoneParked(m.asleep, m.resume) && NoneParked(m.dead, m.resume)
  }

  ghost predicate NoneParked(q: seq<Tid>, resume: map<Tid, Resume>) {
    forall t :: t in q ==> !IsParked(t, resume)
  }

  lemma {:induction false} ParkedAppend(p: seq<Tid>, q: seq<Tid>, resume: map<Tid, Resume>)
    ensures Parked(p + q, resume) == Parked(p, resume) + Parked(q, resume)
  {
    if p == [] {
      assert p + q == q;
    } else {
      ParkedAppend(p[1..], q, resume);
      assert (p + q)[1..] == p[1..] + q;
    }
  }

  lemma {:induction false} ParkedSame(q: seq<Tid>, r1: map<Tid, Resume>, r2: map<Tid, Resume>)
    requires forall t :: t in q ==> (IsParked(t, r1) <==> IsParked(t, r2))
    ensures Parked(q, r1) == Parked(q, r2)
  {
    if q != [] {
      assert q == [q[0]] + q[1..];
      assert IsParked(q[0], r1) <==> IsParked(q[0], r2);
      ParkedSame(q[1..], r1, r2);
    }
  }

  lemma {:induction false} ParkedNone(q: seq<Tid>, resume: map<Tid, Resume>)
    requires forall t :: t in q ==> !IsParked(t, resume)
    ensures Parked(q, resume) == 0
  {
    if q != [] {
      assert q == [q[0]] + q[1..];
      assert !IsParked(q[0], resume);
      ParkedNone(q[1..], resume);
    }
  }

  /** What a switch does to the counter; `held` is 1 when it happens inside unlock_scheduler, else 0. */
  lemma SwitchParked(m: Machine, site: Resume)
    requires Placed(m) && States(m) && m.ready != [] && CanSwitch(m) && ResumeOf(m, m.current) == Active
    requires site == InUnlock ==> m.phase == Normal
    ensures var w := SwitchTo(m, site);
            w.irq - Parked(w.ready, w.resume) == m.irq - Parked(m.ready, m.resume) - (if site == InUnlock then 1 else 0)
  {
    SwitchFacts(m);
    var w, c, n := SwitchTo(m, site), m.current, m.ready[0];
    assert m.ready == [n] + m.ready[1..];
    assert Parked(m.ready, m.resume) == (if IsParked(n, m.resume) then 1 else 0) + Parked(m.ready[1..], m.resume);
    assert forall t :: t in m.ready[1..] ==> t != n;
    ParkedSame(m.ready[1..], m.resume, w.resume);
    if m.phase == Normal {
      ParkedAppend(m.ready[1..], [c], w.resume);
      assert [c][1..] == [];
      assert Parked([c], w.resume) == if site == InUnlock then 1 else 0;
    } else {
      assert w.ready == m.ready[1..];
    }
  }

  lemma SwitchCounters(m: Machine, site: Resume)
    requires Placed(m) && States(m) && m.ready != [] && CanSwitch(m) && m.depth == 0 && !m.flag
    requires ResumeOf(m, m.current) == Active && (site == InUnlock ==> m.phase == Normal)
    requires m.irq == Parked(m.ready, m.resume) + if site == InUnlock then 1 else 0
    requires NoneParked(m.asleep, m.resume) && NoneParked(m.dead, m.resume)
    ensures Counters(SwitchTo(m, site))
  {
    SwitchParked(m, site);
    SwitchNoneParked(m, site);
  }

  /** The task left inside unlock_scheduler is ready afterwards, so neither asleep nor dead. */
  lemma SwitchNoneParked(m: Machine, site: Resume)
    requires Placed(m) && States(m) && m.ready != [] && CanSwitch(m) && (site == InUnlock ==> m.phase == Normal)
    requires NoneParked(m.asleep, m.resume) && NoneParked(m.dead, m.resume)
    ensures var w := SwitchTo(m, site); NoneParked(w.asleep, w.resume) && NoneParked(w.dead, w.resume)
  {
    SwitchFacts(m);
  }

  lemma TickCounters(m: Machine)
    requires Counters(m)
    ensures Counters(Tick(m))
  {
    var due := Due(m.asleep, m.target, m.now + 1);
    DueLater(m.asleep, m.target, m.now + 1);
    ParkedAppend(m.ready, due, m.resume);
    forall t | t in due ensures !IsParked(t, m.resume) { assert t in m.asleep; }
    ParkedNone(due, m.resume);
  }

  lemma CreateCounters(m: Machine, t: Tid)
    requires Placed(m) && Counters(m) && Enabled(m, Created(t))
    ensures Counters(Create(m, t))
  {
    var w := Create(m, t);
    InPlaces(m, t);
    ParkedAppend(m.ready, [t], w.resume);
    assert [t][1..] == [];
    ParkedSame(m.ready, m.resume, w.resume);
  }

  // ---------------------------------------------------------------- CPU time

  /** Every task has been charged exactly the ticks at which it was current; the current task still owes the
      ticks since the last charge. Together with those cleaned up the tasks account for all ticks since the start. */
  ghost predicate Times(m: Machine) {
    && m.last <= m.now
    && (forall t :: t in m.h.alive ==> Settled(m, t))
    && Total(m.h.alive, m.h.ran) + m.h.retired == m.now - m.h.since
  }

  ghost predicate Settled(m: Machine, t: Tid) {
    At(m.used, t) + (if t == m.current then m.now - m.last else 0) == At(m.h.ran, t)
  }

  lemma {:induction false} TotalFrame(q: seq<Tid>, f: Field, t: Tid, v: int)
    requires t !in q
    ensures Total(q, f[t := v]) == Total(q, f)
  {
    if q != [] { TotalFrame(q[1..], f, t, v); }
  }

  lemma {:induction false} TotalUpdate(q: seq<Tid>, f: Field, t: Tid, d: int)
    requires NoDup(q) && t in q
    ensures Total(q, f[t := At(f, t) + d]) == Total(q, f) + d
  {
    TailNoDup(q);
    if q[0] == t {
      TotalFrame(q[1..], f, t, At(f, t) + d);
    } else {
      TotalUpdate(q[1..], f, t, d);
    }
  }

  lemma {:induction false} TotalAppend(q: seq<Tid>, t: Tid, f: Field)
    ensures Total(q + [t], f) == Total(q, f) + At(f, t)
  {
    if q == [] {
      assert q + [t] == [t] && [t][1..] == [];
    } else {
      TotalAppend(q[1..], t, f);
      assert (q + [t])[1..] == q[1..] + [t];
    }
  }

  /** CPU time is conserved: what all tasks were charged, plus what the current one owes, is all the time there was. */
  lemma {:induction false} TimeConserved(m: Machine, q: seq<Tid>)
    requires NoDup(q) && forall t :: t in q ==> Settled(m, t)
    ensures Total(q, m.used) + (if m.current in q then m.now - m.last else 0) == Total(q, m.h.ran)
  {
    if q != [] {
      TailNoDup(q);
      assert q == [q[0]] + q[1..];
      assert q[0] in q && Settled(m, q[0]);
      TimeConserved(m, q[1..]);
    }
  }

  lemma TickTimes(m: Machine)
    requires Placed(m) && Times(m)
    ensures Times(Tick(m))
  {
    InPlaces(m, m.current);
    TotalUpdate(m.h.alive, m.h.ran, m.current, 1);
    assert forall t :: t in m.h.alive ==> Settled(m, t);
  }

  lemma CreateTimes(m: Machine, t: Tid)
    requires Placed(m) && Times(m) && Enabled(m, Created(t))
    ensures Times(Create(m, t))
  {
    InPlaces(m, m.current);
    InPlaces(m, t);
    TotalAppend(m.h.alive, t, m.h.ran[t := 0]);
    TotalFrame(m.h.alive, m.h.ran, t, 0);
    forall s | s in m.h.alive + [t] ensures Settled(Create(m, t), s) { assert s != t ==> Settled(m, s); }
  }

  lemma SwitchTimes(m: Machine, site: Resume)
    requires Times(m) && m.ready != []
    ensures Times(SwitchTo(m, site))
  {
    assert forall t :: t in m.h.alive ==> Settled(m, t);
  }

  lemma {:induction false} TotalRemove(q: seq<Tid>, t: Tid, f: Field)
    requires t in q
    ensures Total(Remove(q, t), f) == Total(q, f) - At(f, t)
  {
    if q[0] != t {
      TotalRemove(q[1..], t, f);
      assert ([q[0]] + Remove(q[1..], t))[1..] == Remove(q[1..], t);
    }
  }

  /** The time of the tasks that stay is that of all less that of those that go. */
  lemma {:induction false} TotalWithout(q: seq<Tid>, d: seq<Tid>, f: Field)
    requires forall t :: Count(d, t) <= Count(q, t)
    ensures Total(Without(q, d), f) == Total(q, f) - Total(d, f)
    decreases |d|
  {
    if d != [] {
      assert Count(d, d[0]) <= Count(q, d[0]);
      TotalRemove(q, d[0], f);
      forall t ensures Count(d[1..], t) <= Count(Remove(q, d[0]), t) {
        assert Count(d, t) <= Count(q, t);
        RemoveCount(q, d[0], t);
      }
      TotalWithout(Remove(q, d[0]), d[1..], f);
    }
  }

  lemma {:induction false} TotalSame(q: seq<Tid>, f: Field, g: Field)
    requires forall t :: t in q ==> At(f, t) == At(g, t)
    ensures Total(q, f) == Total(q, g)
  {
    if q != [] {
      assert q == [q[0]] + q[1..];
      TotalSame(q[1..], f, g);
    }
  }

  lemma CleanupTimes(m: Machine)
    requires Placed(m) && Times(m) && m.phase == Normal
    ensures Times(Cleanup(m))
  {
    var w := Cleanup(m);
    forall t ensures Count(m.dead, t) <= Count(m.h.alive, t) { assert Places(m, t) == Count(m.h.alive, t); }
    TotalWithout(m.h.alive, m.dead, m.h.ran);
    forall t | t in m.dead ensures At(m.used, t) == At(m.h.ran, t) {
      InPlaces(m, t);
      assert Settled(m, t);
    }
    TotalSame(m.dead, m.used, m.h.ran);
    forall t | t in w.h.alive ensures Settled(w, t) {
      CleanupPlace(m, t);
      assert Settled(m, t);
    }
  }

  lemma CleanupLogged(m: Machine)
    requires Placed(m) && Logged(m.h)
    ensures Logged(Cleanup(m).h)
  {
    var w := Cleanup(m);
    forall t ensures Count(w.h.created, t) == Count(w.h.alive, t) + Count(w.h.freed, t) {
      CleanupPlace(m, t);
      CountAppend(m.h.freed, m.dead, t);
      assert Count(m.h.created, t) == Count(m.h.alive, t) + Count(m.h.freed, t);
    }
  }

  lemma CreateLogged(m: Machine, t: Tid)
    requires Logged(m.h)
    ensures Logged(Create(m, t).h)
  {
    var w := Create(m, t);
    forall s ensures Count(w.h.created, s) == Count(w.h.alive, s) + Count(w.h.freed, s) {
      CountAppend(m.h.created, [t], s);
      CountAppend(m.h.alive, [t], s);
      assert Count(m.h.created, s) == Count(m.h.alive, s) + Count(m.h.freed, s);
    }
  }

  // ---------------------------------------------------------------- every step keeps them all

  ghost predicate Inv(m: Machine) {
    Placed(m) && States(m) && Counters(m) && Times(m) && Logged(m.h)
  }

  lemma SwitchInv(m: Machine, site: Resume)
    requires Placed(m) && States(m) && Times(m) && m.ready != [] && CanSwitch(m) && m.depth == 0 && !m.flag
    requires ResumeOf(m, m.current) == Active && (site == InUnlock ==> m.phase == Normal)
    requires m.irq == Parked(m.ready, m.resume) + if site == InUnlock then 1 else 0
    requires NoneParked(m.asleep, m.resume) && NoneParked(m.dead, m.resume) && Logged(m.h)
    ensures Inv(SwitchTo(m, site))
  {
    SwitchPlaced(m, site);
    SwitchStates(m, site);
    SwitchCounters(m, site);
    SwitchTimes(m, site);
  }

  /** Lock depth, interrupts and request flag play no part in where tasks are. */
  lemma LockIrrelevant(m: Machine, depth: nat, irq: int, flag: bool, on: bool)
    requires Placed(m) && States(m)
    ensures var w := m.(depth := depth, irq := irq, flag := flag, on := on); Placed(w) && States(w)
  {
    assert SamePlaces(m, m.(depth := depth, irq := irq, flag := flag, on := on));
  }

  /** The outermost unlock with a request pending. */
  lemma UnlockSwitchInv(m: Machine)
    requires Inv(m) && m.phase == Normal && m.depth == 1 && m.ready != []
    ensures Inv(SwitchTo(m.(depth := 0, flag := false), InUnlock))
  {
    LockIrrelevant(m, 0, m.irq, false, m.on);
    SwitchInv(m.(depth := 0, flag := false), InUnlock);
  }

  lemma UnlockStayInv(m: Machine, flag: bool, on: bool)
    requires Inv(m) && m.phase == Normal && m.depth > 0 && (m.depth == 1 ==> !flag)
    ensures Inv(m.(depth := m.depth - 1, irq := m.irq - 1, flag := flag, on := on))
  {
    LockIrrelevant(m, m.depth - 1, m.irq - 1, flag, on);
  }

  lemma UnlockInv(m: Machine)
    requires Inv(m) && m.phase == Normal && m.depth > 0
    ensures Inv(Unlock(m))
  {
    if m.depth == 1 && m.flag && m.ready != [] {
      UnlockSwitchInv(m);
    } else {
      UnlockStayInv(m, m.depth > 1 && m.flag, m.on || m.irq == 1);
    }
  }

  lemma ScheduleInv(m: Machine)
    requires Inv(m) && (Enabled(m, Yield) || Enabled(m, Leave))
    ensures Inv(Schedule(m, InSchedule))
  {
    if m.depth == 0 && m.ready != [] {
      SwitchInv(m, InSchedule);
    } else {
      assert SamePlaces(m, Schedule(m, InSchedule));
    }
  }

  lemma TickInv(m: Machine)
    requires Inv(m) && Enabled(m, Ticked)
    ensures Inv(Tick(m))
  {
    TickPlaced(m);
    TickStates(m);
    TickCounters(m);
    TickTimes(m);
  }

  lemma CreateInv(m: Machine, t: Tid)
    requires Inv(m) && Enabled(m, Created(t))
    ensures Inv(Create(m, t))
  {
    CreatePlaced(m, t);
    CreateStates(m, t);
    CreateCounters(m, t);
    CreateTimes(m, t);
    CreateLogged(m, t);
  }

  lemma CleanupInv(m: Machine)
    requires Inv(m) && m.phase == Normal
    ensures Inv(Cleanup(m))
  {
    CleanupPlaced(m);
    CleanupTimes(m);
    CleanupLogged(m);
  }

  /** The steps that neither switch, nor wake, nor create, nor clean up. */
  ghost predicate Plain(op: Op) {
    op.Lock? || op.Charged? || op.Sleep? || op.Terminate? || op.Died? || op.Blocked?
  }

  /** The current task leaves its own place for the sleep list or the dead list. */
  lemma PushPlace(m: Machine, op: Op, t: Tid)
    requires Enabled(m, op) && (op.Sleep? || op.Terminate? || op.Died?)
    ensures Places(Next(m, op), t) == Places(m, t)
  {
    CountOne(m.current, t);
    CountAppend([m.current], if op.Sleep? then m.asleep else m.dead, t);
  }

  lemma PlainPlaces(m: Machine, op: Op)
    requires Enabled(m, op) && Plain(op)
    ensures SamePlaces(m, Next(m, op))
  {
    if op.Sleep? || op.Terminate? || op.Died? {
      forall t ensures Places(Next(m, op), t) == Places(m, t) { PushPlace(m, op, t); }
    }
  }

  lemma PlainPlaced(m: Machine, op: Op)
    requires Placed(m) && Enabled(m, op) && Plain(op)
    ensures Placed(Next(m, op))
  {
    PlainPlaces(m, op);
    InPlaces(m, m.current);
  }

  lemma PushStates(m: Machine, op: Op)
    requires Placed(m) && States(m) && Enabled(m, op) && (op.Sleep? || op.Terminate? || op.Died?)
    ensures States(Next(m, op))
  {
    InPlaces(m, m.current);
    var w := Next(m, op);
    assert forall t :: t in w.asleep ==> t in m.asleep || t == m.current;
    assert forall t :: t in w.dead ==> t in m.dead || t == m.current;
  }

  lemma BlockStates(m: Machine, reason: int)
    requires Placed(m) && States(m) && Enabled(m, Blocked(reason))
    ensures States(Block(m, reason))
  {
    InPlaces(m, m.current);
    if m.phase == SleepPushed { SleepBlocks(m); } else { ExitBlocks(m); }
  }

  lemma SleepBlocks(m: Machine)
    requires States(m) && m.phase == SleepPushed && m.current !in m.dead
    ensures States(Block(m, SLEEPING))
  {
  }

  lemma ExitBlocks(m: Machine)
    requires States(m) && m.phase == ExitPushed && m.current !in m.ready && m.current !in m.asleep
    ensures States(Block(m, TERMINATED))
  {
  }

  lemma PlainStates(m: Machine, op: Op)
    requires Placed(m) && States(m) && Enabled(m, op) && Plain(op)
    ensures States(Next(m, op))
  {
    if op.Sleep? || op.Terminate? || op.Died? {
      PushStates(m, op);
    } else if op.Blocked? {
      BlockStates(m, op.reason);
    }
  }

  lemma PlainCounters(m: Machine, op: Op)
    requires Counters(m) && Enabled(m, op) && Plain(op)
    ensures Counters(Next(m, op))
  {
  }

  lemma TimesFrame(m: Machine, w: Machine)
    requires Times(m) && w.current == m.current && w.used == m.used && w.now == m.now && w.last == m.last
    requires w.h.alive == m.h.alive && w.h.ran == m.h.ran && w.h.retired == m.h.retired && w.h.since == m.h.since
    ensures Times(w)
  {
    forall t | t in w.h.alive ensures Settled(w, t) { assert Settled(m, t); }
  }

  lemma ChargeTimes(m: Machine)
    requires Times(m)
    ensures Times(ChargeTime(m))
  {
    forall t | t in m.h.alive ensures Settled(ChargeTime(m), t) { assert Settled(m, t); }
  }

  lemma PlainTimes(m: Machine, op: Op)
    requires Times(m) && Enabled(m, op) && Plain(op)
    ensures Times(Next(m, op))
  {
    if op == Charged { ChargeTimes(m); } else { TimesFrame(m, Next(m, op)); }
  }

  lemma PlainInv(m: Machine, op: Op)
    requires Inv(m) && Enabled(m, op) && Plain(op)
    ensures Inv(Next(m, op))
  {
    PlainPlaced(m, op);
    PlainStates(m, op);
    PlainCounters(m, op);
    PlainTimes(m, op);
  }

  /** Every enabled step, from every state that satisfies the invariants, leads to one that does. */
  lemma StepInv(m: Machine, op: Op)
    requires Inv(m) && Enabled(m, op)
    ensures Inv(Next(m, op))
  {
    match op
    case Unlocked => UnlockInv(m);
    case Yield | Leave => ScheduleInv(m);
    case Created(t) => CreateInv(m, t);
    case Cleaned => CleanupInv(m);
    case Ticked => TickInv(m);
    case _ => PlainInv(m, op);
  }
}
