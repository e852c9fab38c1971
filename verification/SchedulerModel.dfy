/** The cooperative scheduler as a step system. Every C function between two points at which the timer may
    interrupt is one step; the two functions that go to sleep or exit are several, because a tick can fall
    between their parts (sleep.c:22-23, task.c:58-59, task.c:89-91, scheduler.c:206-207). */
module SchedulerModel {
  import opened ByteStore
  import opened TaskLists

  const TERMINATED := -2
  const DEAD := 0
  const READY := 1
  const RUNNING := 2
  const SLEEPING := 3

  /** Where a task will continue when it is switched to. */
  datatype Resume = Active | NotStarted | InSchedule | InUnlock

  /** How far the current task is on its way out: on the sleep list but not blocked yet, blocked but not
      switched away yet, on the dead list, on the dead list with its final state. */
  datatype Phase = Normal | SleepPushed | SleepBlocked | ExitPushed | Exiting

  type Field = map<Tid, int>

  function At(f: Field, t: Tid): int {
    if t in f then f[t] else 0
  }

  /** What the kernel does not store: the boot task; which control blocks were created and which were cleaned up,
      in order, an address once for each time it was used; those of them still there; for how many ticks each of
      these was current; the time charged to the others when they were cleaned up; and when multitasking started. */
  datatype History = History(root: Tid, created: seq<Tid>, freed: seq<Tid>, alive: seq<Tid>,
    ran: Field, retired: int, since: int)

  /** The 32-bit ids, and the counter they are taken from. */
  datatype Ids = Ids(of: Field, pid: nat)

  function WithId(s: Ids, t: Tid): Ids {
    Ids(s.of[t := (s.pid + 1) % WORD], s.pid + 1)
  }

  /** `on` is the processor's interrupt flag. */
  datatype Machine = Machine(
    current: Tid, ready: seq<Tid>, asleep: seq<Tid>, dead: seq<Tid>,
    state: Field, used: Field, target: Field, ids: Ids,
    depth: nat, irq: int, flag: bool, on: bool, now: int, last: int,
    phase: Phase, resume: map<Tid, Resume>, switches: nat, h: History)

  function ResumeOf(m: Machine, t: Tid): Resume {
    if t in m.resume then m.resume[t] else Active
  }

  // ---------------------------------------------------------------- the steps

  function ChargeTime(m: Machine): Machine {
    m.(used := m.used[m.current := At(m.used, m.current) + (m.now - m.last)], last := m.now)
  }

  function Requeues(m: Machine): bool {
    At(m.state, m.current) == RUNNING || At(m.state, m.current) == READY
  }

  /** The current task goes to the end of the queue. */
  function Returned(m: Machine): Machine {
    m.(ready := m.ready + [m.current], state := m.state[m.current := READY])
  }

  /** The part of schedule() after it has found a task to run. `site` is where the current task is left. */
  function SwitchTo(m: Machine, site: Resume): Machine
    requires m.ready != []
  {
    var c, n := m.current, m.ready[0];
    var m1 := ChargeTime(m);
    var state1 := if Requeues(m) then m.state[c := READY] else m.state;
    m1.(ready := m.ready[1..] + (if Requeues(m) then [c] else []),
        state := state1[n := RUNNING], current := n, phase := Normal, switches := m.switches + 1,
        resume := m.resume[c := site][n := Active],
        irq := m.irq - (if ResumeOf(m, n) == InUnlock then 1 else 0), on := OnEntering(m, n))
  }

  /** The interrupt flag once `n` goes on: a task that starts executes sti, one that finishes unlock_scheduler does
      so if the counter drops to 0, and one that returns from schedule() leaves the flag as it was. */
  function OnEntering(m: Machine, n: Tid): bool {
    m.on || ResumeOf(m, n) == NotStarted || (ResumeOf(m, n) == InUnlock && m.irq == 1)
  }

  /** The machine between taking the next task off the queue and entering it. */
  function Taken(m: Machine): Machine
    requires m.ready != []
  {
    var m1 := ChargeTime(m.(ready := m.ready[1..]));
    if Requeues(m) then Returned(m1) else m1
  }

  /** The switch itself: the current task is left at `site`, and `n` goes on where it was left; if that is inside
      unlock_scheduler, it first gives back its share of the interrupt counter. */
  function Entered(m: Machine, n: Tid, site: Resume): Machine {
    m.(current := n, state := m.state[n := RUNNING], resume := m.resume[m.current := site][n := Active],
       irq := m.irq - (if ResumeOf(m, n) == InUnlock then 1 else 0), on := OnEntering(m, n),
       phase := Normal, switches := m.switches + 1)
  }

  /** The processor is on the stack of `n`. */
  function Loaded(m: Machine, n: Tid): Machine {
    m.(current := n, state := m.state[n := RUNNING], phase := Normal, switches := m.switches + 1)
  }

  /** The current task goes on where it was left. */
  function Resumed(m: Machine): Machine {
    m.(irq := m.irq - (if ResumeOf(m, m.current) == InUnlock then 1 else 0), on := OnEntering(m, m.current),
       resume := m.resume[m.current := Active])
  }

  lemma EnteredInStages(m: Machine, n: Tid, site: Resume)
    requires n != m.current
    ensures Resumed(Loaded(m.(resume := m.resume[m.current := site]), n)) == Entered(m, n, site)
  {
  }

  lemma SwitchInStages(m: Machine, site: Resume)
    requires m.ready != []
    ensures SwitchTo(m, site) == Entered(Taken(m), m.ready[0], site)
  {
  }

  function Schedule(m: Machine, site: Resume): Machine {
    if m.depth != 0 then m.(flag := true)
    else if m.ready == [] then m
    else SwitchTo(m, site)
  }

  function Unlock(m: Machine): Machine
    requires m.depth > 0
  {
    if m.depth == 1 && m.flag then
      var m1 := m.(depth := 0, flag := false);
      if m.ready == [] then m1.(irq := m.irq - 1, on := m.on || m.irq == 1) else SwitchTo(m1, InUnlock)
    else Released(m)
  }

  function Enrolled(h: History, t: Tid): History {
    h.(created := h.created + [t], alive := h.alive + [t], ran := h.ran[t := 0])
  }

  function Locked(m: Machine): Machine {
    m.(depth := m.depth + 1, irq := m.irq + 1, on := false)
  }

  function Released(m: Machine): Machine
    requires m.depth > 0
  {
    m.(depth := m.depth - 1, irq := m.irq - 1, on := m.on || m.irq == 1)
  }

  /** The lock taken and given back without a request pending: interrupts are then on exactly if the counter is 0. */
  function Brief(m: Machine): Machine {
    m.(on := m.irq == 0)
  }

  lemma LockedBriefly(m: Machine)
    ensures Released(Locked(m)) == Brief(m)
  {
  }

  function Initialised(m: Machine, t: Tid): Machine {
    m.(state := m.state[t := READY], used := m.used[t := 0], target := m.target[t := 0],
       ids := WithId(m.ids, t), resume := m.resume[t := NotStarted], h := Enrolled(m.h, t))
  }

  function Create(m: Machine, t: Tid): Machine {
    Brief(Initialised(m, t).(ready := m.ready + [t]))
  }

  function PushAsleep(m: Machine, until: int): Machine {
    Brief(m.(asleep := [m.current] + m.asleep, target := m.target[m.current := until], phase := SleepPushed))
  }

  function PushDead(m: Machine): Machine {
    Brief(m.(dead := [m.current] + m.dead, phase := ExitPushed))
  }

  /** block_task up to its unlock. */
  function Block(m: Machine, reason: int): Machine {
    Brief(m.(state := m.state[m.current := reason], phase := if m.phase == SleepPushed then SleepBlocked else Exiting))
  }

  function Die(m: Machine): Machine {
    Brief(m.(state := m.state[m.current := DEAD], dead := [m.current] + m.dead, phase := Exiting))
  }

  function Total(q: seq<Tid>, f: Field): int {
    if q == [] then 0 else At(f, q[0]) + Total(q[1..], f)
  }

  function Buried(h: History, dead: seq<Tid>, used: Field): History {
    h.(freed := h.freed + dead, alive := Without(h.alive, dead), retired := h.retired + Total(dead, used))
  }

  function Cleanup(m: Machine): Machine {
    Brief(m.(dead := [], h := Buried(m.h, m.dead, m.used)))
  }

  function Due(q: seq<Tid>, target: Field, now: int): seq<Tid> {
    if q == [] then [] else (if At(target, q[0]) <= now then [q[0]] else []) + Due(q[1..], target, now)
  }

  function Later(q: seq<Tid>, target: Field, now: int): seq<Tid> {
    if q == [] then [] else (if At(target, q[0]) <= now then [] else [q[0]]) + Later(q[1..], target, now)
  }

  function SetAll(f: Field, q: seq<Tid>, v: int): Field
    decreases |q|
  {
    if q == [] then f else SetAll(f[q[0] := v], q[1..], v)
  }

  /** A timer interrupt; iret brings the interrupt flag back. */
  function Tick(m: Machine): Machine {
    var due := Due(m.asleep, m.target, m.now + 1);
    m.(now := m.now + 1, h := m.h.(ran := m.h.ran[m.current := At(m.h.ran, m.current) + 1]),
       asleep := Later(m.asleep, m.target, m.now + 1), ready := m.ready + due, state := SetAll(m.state, due, READY))
  }

  /** A tick in two parts: the counter, and the walk over the sleepers. */
  function Counted(m: Machine): Machine {
    m.(now := m.now + 1, h := m.h.(ran := m.h.ran[m.current := At(m.h.ran, m.current) + 1]))
  }

  function Awoken(m: Machine): Machine {
    var due := Due(m.asleep, m.target, m.now);
    m.(asleep := Later(m.asleep, m.target, m.now), ready := m.ready + due, state := SetAll(m.state, due, READY))
  }

  /** Half-way through that walk, with the sleepers `rest` still to be looked at. */
  function Walked(m: Machine, seen: seq<Tid>, rest: seq<Tid>): Machine {
    var due := Due(seen, m.target, m.now);
    m.(asleep := Later(seen, m.target, m.now) + rest, ready := m.ready + due, state := SetAll(m.state, due, READY))
  }

  lemma TickInStages(m: Machine)
    ensures Tick(m) == Brief(Awoken(Counted(m.(on := false)))).(on := m.on)
  {
  }

  datatype Op = Lock | Unlocked | Yield | Created(t: Tid) | Sleep(until: int) | Terminate | Died | Blocked(reason: int) | Leave
              | Cleaned | Ticked | Charged

  /** `t` is the address of a control block in use. */
  predicate InService(m: Machine, t: Tid) {
    t == m.current || t in m.ready || t in m.asleep || t in m.dead
  }

  /** What may happen next. A new control block is at any address not in service, be it one used before. Only tasks
      other than the boot task sleep or exit, and not under a lock; a tick needs the lock to be free, and must not
      wake a task that has blocked but not yet switched away. */
  ghost predicate Enabled(m: Machine, op: Op) {
    match op
    case Lock | Yield | Cleaned | Charged => m.phase == Normal
    case Unlocked => m.phase == Normal && m.depth > 0
    case Created(t) => m.phase == Normal && t != NULL && !InService(m, t)
    case Sleep(_) | Terminate | Died => m.phase == Normal && m.depth == 0 && m.current != m.h.root
    case Blocked(reason) => (m.phase == SleepPushed && reason == SLEEPING) || (m.phase == ExitPushed && reason == TERMINATED)
    case Leave => m.phase == SleepBlocked || m.phase == Exiting
    case Ticked => m.depth == 0 && !(m.phase == SleepBlocked && m.current in m.asleep && At(m.target, m.current) <= m.now + 1)
  }

  function Next(m: Machine, op: Op): Machine
    requires op.Unlocked? ==> m.depth > 0
  {
    match op
    case Lock => Locked(m)
    case Unlocked => Unlock(m)
    case Yield => Schedule(m, InSchedule)
    case Created(t) => Create(m, t)
    case Sleep(until) => PushAsleep(m, until)
    case Terminate => PushDead(m)
    case Died => Die(m)
    case Blocked(reason) => Block(m, reason)
    case Leave => Schedule(m, InSchedule)
    case Cleaned => Cleanup(m)
    case Ticked => Tick(m)
    case Charged => ChargeTime(m)
  }

  // ---------------------------------------------------------------- every task is in exactly one place

  /** In how many places task `t` is; the current task has a place of its own unless it is on its way out. */
  ghost function Places(m: Machine, t: Tid): nat {
    (if m.phase == Normal && t == m.current then 1 else 0)
    + Count(m.ready, t) + Count(m.asleep, t) + Count(m.dead, t)
  }

  ghost predicate SamePlaces(m: Machine, w: Machine) {
    w.h.alive == m.h.alive && forall t :: Places(w, t) == Places(m, t)
  }

  /** The scheduler partition. The control blocks still there are those created and not cleaned up, no address
      twice. On the way out the current task is among the sleepers (or was woken and is queued behind another task)
      or among the dead. The boot task is always current or ready. */
  ghost predicate Placed(m: Machine) {
    && (forall t :: Places(m, t) == Count(m.h.alive, t)) && NoDup(m.h.alive) && NULL !in m.h.alive
    && (m.phase == Normal ==> m.h.root == m.current || m.h.root in m.ready)
    && (m.phase != Normal ==> m.h.root in m.ready && m.ready[0] != m.current)
    && (m.phase == SleepPushed || m.phase == SleepBlocked ==> m.current in m.asleep || m.current in m.ready)
    && (m.phase == ExitPushed || m.phase == Exiting ==> m.current in m.dead)
  }

  /** Every address has been created as often as it is in use now and was cleaned up before. */
  ghost predicate Logged(h: History) {
    forall t :: Count(h.created, t) == Count(h.alive, t) + Count(h.freed, t)
  }

  /** A task is in at most one of the places. */
  lemma InPlaces(m: Machine, t: Tid)
    requires Placed(m)
    ensures m.current in m.h.alive
    ensures t in m.ready || t in m.asleep || t in m.dead ==> t in m.h.alive
    ensures t in m.ready ==> t !in m.asleep && t !in m.dead
    ensures t in m.asleep ==> t !in m.dead
    ensures m.phase == Normal && t == m.current ==> t !in m.ready && t !in m.asleep && t !in m.dead
    ensures Count(m.ready, t) <= 1 && Count(m.asleep, t) <= 1 && Count(m.dead, t) <= 1
    ensures InService(m, t) <==> t in m.h.alive
  {
    assert NoDup(m.h.alive) && Count(m.h.alive, t) <= 1;
    assert Places(m, t) == Count(m.h.alive, t);
    assert Places(m, m.current) == Count(m.h.alive, m.current);
  }

  /** Every sleeper goes one way or the other ... */
  lemma {:induction false} DueCounts(q: seq<Tid>, target: Field, now: int, t: Tid)
    ensures Count(Due(q, target, now), t) + Count(Later(q, target, now), t) == Count(q, t)
  {
    if q != [] {
      DueCounts(q[1..], target, now, t);
      CountOne(q[0], t);
      CountAppend(if At(target, q[0]) <= now then [q[0]] else [], Due(q[1..], target, now), t);
      CountAppend(if At(target, q[0]) <= now then [] else [q[0]], Later(q[1..], target, now), t);
    }
  }

  /** ... by its deadline alone. */
  lemma {:induction false} DueLater(q: seq<Tid>, target: Field, now: int)
    ensures forall t :: t in Due(q, target, now) <==> t in q && At(target, t) <= now
    ensures forall t :: t in Later(q, target, now) <==> t in q && At(target, t) > now
  {
    if q != [] {
      DueLater(q[1..], target, now);
      assert q == [q[0]] + q[1..];
    }
  }

  /** What states a task can have where it is; used to see that schedule() puts back exactly those it should. */
  ghost predicate States(m: Machine) {
    && (m.phase == Normal ==> At(m.state, m.current) == RUNNING)
    && (m.phase == SleepPushed || m.phase == ExitPushed ==> At(m.state, m.current) > 0)
    && (m.phase == SleepBlocked ==> At(m.state, m.current) == SLEEPING)
    && (m.phase == Exiting ==> At(m.state, m.current) <= 0)
    && (forall t :: t in m.ready ==> At(m.state, t) == READY || At(m.state, t) == SLEEPING)
    && (forall t :: t in m.asleep ==> At(m.state, t) == SLEEPING || (t == m.current && m.phase == SleepPushed))
    && (forall t :: t in m.dead ==> At(m.state, t) <= 0 || (t == m.current && m.phase == ExitPushed))
  }

  /** The points at which schedule() is called. */
  ghost predicate CanSwitch(m: Machine) {
    m.phase == Normal || m.phase == SleepBlocked || m.phase == Exiting
  }

  /** At those points the current task is put back exactly if it is not on its way out. */
  lemma SwitchFacts(m: Machine)
    requires Placed(m) && States(m) && m.ready != [] && CanSwitch(m)
    ensures m.ready[0] != m.current && m.ready[0] !in m.ready[1..]
    ensures Requeues(m) <==> m.phase == Normal
    ensures m.phase == Normal ==> m.current !in m.ready && m.current !in m.asleep && m.current !in m.dead
  {
    InPlaces(m, m.ready[0]);
    InPlaces(m, m.current);
    assert m.ready == [m.ready[0]] + m.ready[1..];
  }

  /** A switch only moves tasks from place to place. */
  lemma SwitchPlaces(m: Machine, site: Resume)
    requires m.ready != [] && (Requeues(m) <==> m.phase == Normal)
    ensures SamePlaces(m, SwitchTo(m, site))
  {
    forall t ensures Places(SwitchTo(m, site), t) == Places(m, t) {
      CountAppend(m.ready[1..], if Requeues(m) then [m.current] else [], t);
      CountOne(m.current, t);
    }
  }

  lemma SwitchPlaced(m: Machine, site: Resume)
    requires Placed(m) && States(m) && m.ready != [] && CanSwitch(m)
    ensures Placed(SwitchTo(m, site))
  {
    SwitchFacts(m);
    SwitchPlaces(m, site);
    var w := SwitchTo(m, site);
    assert m.ready == [m.ready[0]] + m.ready[1..];
    assert m.h.root == m.ready[0] || m.h.root in w.ready;
  }

  lemma SwitchStates(m: Machine, site: Resume)
    requires Placed(m) && States(m) && m.ready != [] && CanSwitch(m)
    ensures States(SwitchTo(m, site))
  {
    SwitchFacts(m);
    var w, n := SwitchTo(m, site), m.ready[0];
    InPlaces(m, n);
    forall t | t in w.ready ensures At(w.state, t) == READY || At(w.state, t) == SLEEPING {
      assert t != n && (t in m.ready || (Requeues(m) && t == m.current));
    }
  }

  lemma TickPlace(m: Machine, t: Tid)
    ensures Places(Tick(m), t) == Places(m, t)
  {
    DueCounts(m.asleep, m.target, m.now + 1, t);
    CountAppend(m.ready, Due(m.asleep, m.target, m.now + 1), t);
  }

  lemma TickPlaces(m: Machine)
    ensures SamePlaces(m, Tick(m))
  {
    forall t ensures Places(Tick(m), t) == Places(m, t) { TickPlace(m, t); }
  }

  lemma TickPlaced(m: Machine)
    requires Placed(m)
    ensures Placed(Tick(m))
  {
    TickPlaces(m);
    assert m.current in m.asleep ==> m.current in Tick(m).asleep || m.current in Tick(m).ready by {
      DueLater(m.asleep, m.target, m.now + 1);
    }
    assert m.ready != [] ==> Tick(m).ready[0] == m.ready[0];
  }

  lemma {:induction false} SetAllAt(f: Field, q: seq<Tid>, v: int, t: Tid)
    ensures At(SetAll(f, q, v), t) == if t in q then v else At(f, t)
    decreases |q|
  {
    if q != [] { SetAllAt(f[q[0] := v], q[1..], v, t); }
  }

  lemma TickState(m: Machine, t: Tid)
    requires Placed(m)
    ensures At(Tick(m).state, t) == if t in m.asleep && At(m.target, t) <= m.now + 1 then READY else At(m.state, t)
    ensures t in Tick(m).ready <==> t in m.ready || (t in m.asleep && At(m.target, t) <= m.now + 1)
    ensures t in Tick(m).asleep <==> t in m.asleep && At(m.target, t) > m.now + 1
  {
    DueLater(m.asleep, m.target, m.now + 1);
    SetAllAt(m.state, Due(m.asleep, m.target, m.now + 1), READY, t);
  }

  lemma TickStates(m: Machine)
    requires Placed(m) && States(m) && Enabled(m, Ticked)
    ensures States(Tick(m))
  {
    var w := Tick(m);
    TickState(m, m.current);
    InPlaces(m, m.current);
    forall t | t in w.ready ensures At(w.state, t) == READY || At(w.state, t) == SLEEPING { TickState(m, t); }
    forall t | t in w.asleep || t in w.dead ensures At(w.state, t) == At(m.state, t) && (t in w.asleep ==> t in m.asleep) {
      TickState(m, t);
      InPlaces(m, t);
    }
  }

  lemma CreatePlace(m: Machine, t: Tid, s: Tid)
    requires Placed(m) && m.phase == Normal && !InService(m, t)
    ensures Count(m.h.alive + [t], s) <= 1 && Places(Create(m, t), s) == Count(m.h.alive + [t], s)
  {
    InPlaces(m, t);
    CountAppend(m.h.alive, [t], s);
    CountAppend(m.ready, [t], s);
    CountOne(t, s);
    assert Count(m.h.alive, s) <= 1 && Places(m, s) == Count(m.h.alive, s);
  }

  lemma CreatePlaced(m: Machine, t: Tid)
    requires Placed(m) && Enabled(m, Created(t))
    ensures Placed(Create(m, t))
  {
    forall s ensures Count(m.h.alive + [t], s) <= 1 && Places(Create(m, t), s) == Count(m.h.alive + [t], s) {
      CreatePlace(m, t, s);
    }
  }

  lemma CreateStates(m: Machine, t: Tid)
    requires States(m) && Enabled(m, Created(t))
    ensures States(Create(m, t))
  {
  }

  /** Cleaning up takes exactly the dead tasks away. */
  lemma CleanupPlace(m: Machine, t: Tid)
    requires Placed(m)
    ensures Count(Without(m.h.alive, m.dead), t) == Count(m.h.alive, t) - Count(m.dead, t) == Places(Cleanup(m), t)
  {
    forall s ensures Count(m.dead, s) <= Count(m.h.alive, s) { assert Places(m, s) == Count(m.h.alive, s); }
    WithoutCount(m.h.alive, m.dead, t);
    assert Places(m, t) == Count(m.h.alive, t);
  }

  lemma CleanupPlaced(m: Machine)
    requires Placed(m) && m.phase == Normal
    ensures Placed(Cleanup(m))
  {
    var w := Cleanup(m);
    forall t ensures Places(w, t) == Count(w.h.alive, t) <= 1 {
      CleanupPlace(m, t);
      assert Count(m.h.alive, t) <= 1;
    }
    CleanupPlace(m, NULL);
  }
}
