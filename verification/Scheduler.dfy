/** The scheduler on its real data: lists threaded through the `next` field of the control blocks, global
    counters, and a context switch (scheduler.c, sleep.c, task.c, switch_to_task.S). Each field of the control
    blocks is a store of its own, indexed by the address of the block. A method ends where the processor leaves
    the calling task; what that task has still to do when it comes back is recorded in `resume`. */
module Scheduler {
  import opened ByteStore
  import opened TaskLists
  import opened SchedulerModel
  import opened SchedulerInvariants
  import opened SchedulerRuns
  import opened TaskIds

  /** No task is in two of the lists, or twice in one. */
  ghost predicate Apart(r: seq<Tid>, a: seq<Tid>, d: seq<Tid>) {
    forall t :: Count(r, t) + Count(a, t) + Count(d, t) <= 1
  }

  lemma PlacedApart(m: Machine)
    requires Placed(m)
    ensures Apart(m.ready, m.asleep, m.dead)
    ensures m.phase == Normal ==> m.current !in m.ready && m.current !in m.asleep && m.current !in m.dead
  {
    forall t ensures Count(m.ready, t) + Count(m.asleep, t) + Count(m.dead, t) <= 1 {
      assert Count(m.h.alive, t) <= 1 && Places(m, t) == Count(m.h.alive, t);
    }
    InPlaces(m, m.current);
  }

  lemma ApartNoDup(r: seq<Tid>, a: seq<Tid>, d: seq<Tid>)
    requires Apart(r, a, d)
    ensures NoDup(r) && NoDup(a) && NoDup(d)
    ensures forall t :: t in r ==> t !in a && t !in d
    ensures forall t :: t in a ==> t !in d
  {
    forall t ensures Count(r, t) <= 1 && Count(a, t) <= 1 && Count(d, t) <= 1 && (t in r ==> t !in a && t !in d) && (t in a ==> t !in d) {
      assert Count(r, t) + Count(a, t) + Count(d, t) <= 1;
    }
  }

  lemma NoDupAppend(q: seq<Tid>, t: Tid)
    requires NoDup(q) && t !in q
    ensures NoDup(q + [t])
  {
    forall s ensures Count(q + [t], s) <= 1 {
      assert Count(q, s) <= 1;
      CountAppend(q, [t], s);
      CountOne(t, s);
    }
  }

  lemma TailApart(r: seq<Tid>, a: seq<Tid>, d: seq<Tid>)
    requires Apart(r, a, d) && r != []
    ensures Apart(r[1..], a, d)
  {
    forall s ensures Count(r[1..], s) + Count(a, s) + Count(d, s) <= 1 {
      assert Count(r, s) + Count(a, s) + Count(d, s) <= 1;
    }
  }

  /** Taking `c` out of the sleep list. */
  lemma UnlinkApart(r: seq<Tid>, p: seq<Tid>, c: Tid, q: seq<Tid>, d: seq<Tid>)
    requires Apart(r, p + [c] + q, d)
    ensures Apart(r, p + q, d) && c !in r && c !in p + q && c !in d && NoDup(p + [c] + q)
  {
    forall t ensures Count(r, t) + Count(p + q, t) + Count(d, t) <= 1 && Count(p + [c] + q, t) <= 1 {
      assert Count(r, t) + Count(p + [c] + q, t) + Count(d, t) <= 1;
      SplitCount(p, c, q, t);
    }
    assert Count(r, c) + Count(p + [c] + q, c) + Count(d, c) <= 1;
    SplitCount(p, c, q, c);
  }

  lemma SplitCount(p: seq<Tid>, c: Tid, q: seq<Tid>, t: Tid)
    ensures Count(p + [c] + q, t) == Count(p + q, t) + if c == t then 1 else 0
  {
    CountAppend(p + [c], q, t);
    CountAppend(p, [c], t);
    CountAppend(p, q, t);
    CountOne(c, t);
  }

  lemma AppendApart(r: seq<Tid>, a: seq<Tid>, d: seq<Tid>, t: Tid)
    requires Apart(r, a, d) && t !in r && t !in a && t !in d
    ensures Apart(r + [t], a, d)
  {
    forall s ensures Count(r + [t], s) + Count(a, s) + Count(d, s) <= 1 {
      assert Count(r, s) + Count(a, s) + Count(d, s) <= 1;
      CountAppend(r, [t], s);
      CountOne(t, s);
    }
  }

  lemma {:induction false} SetAllAppend(f: Field, q: seq<Tid>, t: Tid, v: int)
    ensures SetAll(f, q + [t], v) == SetAll(f, q, v)[t := v]
    decreases |q|
  {
    if q == [] {
      assert q + [t] == [t] && [t][1..] == [];
    } else {
      assert (q + [t])[1..] == q[1..] + [t];
      SetAllAppend(f[q[0] := v], q[1..], t, v);
    }
  }

  /** The two filters over one more sleeper. */
  lemma OneMore(seen: seq<Tid>, c: Tid, target: Field, now: int)
    ensures Due(seen + [c], target, now) == if At(target, c) <= now then Due(seen, target, now) + [c] else Due(seen, target, now)
    ensures Later(seen + [c], target, now) == if At(target, c) <= now then Later(seen, target, now) else Later(seen, target, now) + [c]
  {
    DueConcat(seen, [c], target, now);
    LaterConcat(seen, [c], target, now);
    FilterOne(c, target, now);
  }

  lemma LockIrrelevantIf(m: Machine, b: bool)
    requires b ==> Placed(m) && States(m)
    ensures b ==> var w := m.(depth := 0); Placed(w) && States(w)
  {
    if b { LockIrrelevant(m, 0, m.irq, m.flag, m.on); }
  }

  lemma {:induction false} ListRemove(next: map<Tid, Tid>, head: Tid, q: seq<Tid>, t: Tid)
    requires IsList(next, head, q) && t !in q
    ensures IsList(next - {t}, head, q)
    decreases |q|
  {
    if q != [] { ListRemove(next, next[head], q[1..], t); }
  }

  /** One more sleeper walked past: one that stays ... */
  lemma WalkedPast(m: Machine, seen: seq<Tid>, c: Tid, q: seq<Tid>)
    requires At(m.target, c) > m.now
    ensures Later(seen + [c], m.target, m.now) == Later(seen, m.target, m.now) + [c]
    ensures Walked(m, seen + [c], q) == Walked(m, seen, [c] + q)
  {
    OneMore(seen, c, m.target, m.now);
    Associative(Later(seen, m.target, m.now), [c], q);
  }

  /** ... and one that is woken. */
  lemma WalkedOver(m: Machine, seen: seq<Tid>, c: Tid, q: seq<Tid>)
    requires At(m.target, c) <= m.now
    ensures Later(seen + [c], m.target, m.now) == Later(seen, m.target, m.now)
    ensures var w := Walked(m, seen, [c] + q);
      Walked(m, seen + [c], q) ==
        w.(asleep := Later(seen, m.target, m.now) + q, ready := w.ready + [c], state := w.state[c := READY])
  {
    OneMore(seen, c, m.target, m.now);
    SetAllAppend(m.state, Due(seen, m.target, m.now), c, READY);
    assert m.ready + (Due(seen, m.target, m.now) + [c]) == m.ready + Due(seen, m.target, m.now) + [c];
  }

  lemma WalkedNone(m: Machine)
    ensures Walked(m, [], m.asleep) == m && [] + m.asleep == m.asleep
  {
    assert m.ready + [] == m.ready && [] + m.asleep == m.asleep;
  }

  lemma WalkedAll(m: Machine, seen: seq<Tid>)
    requires m.asleep == seen + []
    ensures Walked(m, seen, []) == Awoken(m)
  {
    assert seen + [] == seen;
  }

  class Scheduler {
    // the fields of the task control blocks, by address
    var next: map<Tid, Tid>
    var state: Field
    var timeUsed: Field
    var wakeup: Field
    var id: Field
    var currentPid: nat
    // where the saved stack of a task that is not running returns to
    var resume: map<Tid, Resume>

    var current: Tid
    var first: Tid
    var last: Tid
    var dead: Tid
    var sleeping: Tid
    var lastTick: int
    var ticks: int
    var irqDisable: int
    // the processor's interrupt flag
    var interrupts: bool
    var postpone: nat
    var postponed: bool

    // the lists as sequences, and the history that the kernel does not store
    ghost var ready: seq<Tid>
    ghost var asleep: seq<Tid>
    ghost var graveyard: seq<Tid>
    ghost var phase: Phase
    ghost var switches: nat
    ghost var history: History

    ghost function View(): Machine
      reads this
    {
      Machine(current, ready, asleep, graveyard, state, timeUsed, wakeup, Ids(id, currentPid), postpone, irqDisable,
              postponed, interrupts, ticks, lastTick, phase, resume, switches, history)
    }

    /** The three lists read off the `next` fields are the abstract ones; `last` is the true tail. */
    ghost predicate Rep()
      reads `next, `first, `last, `ready, `sleeping, `asleep, `dead, `graveyard, `current
    {
      Lists() && current != NULL
    }

    ghost predicate Lists()
      reads `next, `first, `last, `ready, `sleeping, `asleep, `dead, `graveyard
    {
      IsQueue(Queue(next, first, last), ready) && IsList(next, sleeping, asleep) && IsList(next, dead, graveyard)
    }

    ghost predicate Valid()
      reads this
    {
      Rep() && Inv(View())
    }

    /** What appending `t` to the ready queue does to the three lists. */
    lemma EnqueueLists(t: Tid)
      requires Rep() && Apart(ready, asleep, graveyard) && t != NULL && t !in ready && t !in asleep && t !in graveyard
      ensures var u := Push(Queue(next, first, last), t);
              IsQueue(u, ready + [t]) && IsList(u.next, sleeping, asleep) && IsList(u.next, dead, graveyard)
    {
      ApartNoDup(ready, asleep, graveyard);
      NoDupAppend(ready, t);
      PushOk(Queue(next, first, last), ready, t);
      ListFrame(next, sleeping, asleep, t, NULL);
      ListFrame(next, dead, graveyard, t, NULL);
      if ready != [] {
        assert last in ready;
        ListFrame(next[t := NULL], sleeping, asleep, last, t);
        ListFrame(next[t := NULL], dead, graveyard, last, t);
      }
    }

    /** What putting `t` in front of one list (and writing its `next` field) does to the others. */
    lemma PrependLists(t: Tid, head: Tid)
      requires Rep() && t != NULL && t !in ready && t !in asleep && t !in graveyard && (head == sleeping || head == dead)
      ensures var n := next[t := head];
              IsQueue(Queue(n, first, last), ready)
              && (head == sleeping ==> IsList(n, t, [t] + asleep)) && (head == dead ==> IsList(n, t, [t] + graveyard))
              && IsList(n, sleeping, asleep) && IsList(n, dead, graveyard)
    {
      ListFrame(next, first, ready, t, head);
      ListFrame(next, sleeping, asleep, t, head);
      ListFrame(next, dead, graveyard, t, head);
      if head == sleeping { ListPrepend(next, sleeping, asleep, t); }
      if head == dead { ListPrepend(next, dead, graveyard, t); }
    }

    /** The pointers of the ready queue, the way schedule, unblock_task and create_kernel_task set them. */
    method LinkLast(t: Tid)
      modifies `next, `first, `last
      ensures Queue(next, first, last) == Push(old(Queue(next, first, last)), t)
    {
      next := next[t := NULL];
      if last != NULL {
        next := next[last := t];
        last := t;
      } else {
        first := t;
        last := t;
      }
    }

    method Enqueue(t: Tid)
      requires Rep() && Apart(ready, asleep, graveyard) && t != NULL && t !in ready && t !in asleep && t !in graveyard
      modifies `next, `first, `last, `ready
      ensures Rep() && View() == old(View()).(ready := old(ready) + [t])
    {
      EnqueueLists(t);
      LinkLast(t);
      ready := ready + [t];
      assert View() == old(View()).(ready := ready);
    }

    /** multitasking_initialize: the running kernel becomes task `boot`. */
    constructor (boot: Tid, now: int)
      requires boot != NULL
      ensures Valid() && View() == Initial(boot, now)
    {
      next, state, timeUsed, wakeup := map[boot := boot], map[boot := RUNNING], map[boot := 0], map[boot := 0];
      resume, id, currentPid := map[boot := Active], map[boot := 0], 0;
      current, first, last, dead, sleeping := boot, NULL, NULL, NULL, NULL;
      lastTick, ticks := now, now;
      irqDisable, interrupts, postpone, postponed := 0, true, 0, false;
      ready, asleep, graveyard, phase, switches := [], [], [], Normal, 0;
      history := History(boot, [boot], [], [boot], map[boot := 0], 0, now);
      new;
      InitialInv(boot, now);
    }

    method LockScheduler()
      modifies `interrupts, `irqDisable, `postpone
      ensures View() == Locked(old(View()))
    {
      interrupts := false;
      irqDisable := irqDisable + 1;
      postpone := postpone + 1;
    }

    /** unlock_scheduler(), lines 176-179 */
    method LowerIrq()
      modifies `interrupts, `irqDisable
      ensures View() == old(View()).(irq := old(irqDisable) - 1, on := old(interrupts) || old(irqDisable) == 1)
    {
      irqDisable := irqDisable - 1;
      if irqDisable == 0 {
        interrupts := true;
      }
    }

    /** unlock_scheduler() when it gives up the lock without a pending request. */
    method ReleaseLock()
      requires postpone > 0 && !(postpone == 1 && postponed)
      modifies `interrupts, `irqDisable, `postpone
      ensures View() == Released(old(View()))
    {
      postpone := postpone - 1;
      LowerIrq();
    }

    method UpdateTimeUsed()
      modifies `timeUsed, `lastTick
      ensures View() == ChargeTime(old(View()))
    {
      var elapsed := ticks - lastTick;
      lastTick := ticks;
      timeUsed := timeUsed[current := At(timeUsed, current) + elapsed];
    }

    /** _switch_to_task, lines 17-23: `site` is the place where the calling task will go on. */
    method SaveTask(site: Resume)
      modifies `resume
      ensures View() == old(View()).(resume := old(resume)[current := site])
    {
      resume := resume[current := site];
    }

    /** _switch_to_task, lines 29-38 */
    method LoadTask(n: Tid)
      modifies `current, `state, `phase, `switches
      ensures View() == Loaded(old(View()), n)
    {
      current := n;
      state := state[n := RUNNING];
      phase, switches := Normal, switches + 1;
    }

    /** The first thing a task switched to does: if it was parked inside unlock_scheduler it finishes that call, and if
        it has not run before, task_start_up executes sti. */
    method GoOn()
      modifies `interrupts, `irqDisable, `resume
      ensures View() == Resumed(old(View()))
    {
      var site := if current in resume then resume[current] else Active;
      resume := resume[current := Active];
      if site == InUnlock {
        LowerIrq();
      } else if site == NotStarted {
        interrupts := true;
      }
    }

    method SwitchToTask(n: Tid, site: Resume)
      requires Rep() && n != NULL && n != current
      modifies `current, `state, `resume, `interrupts, `irqDisable, `phase, `switches
      ensures Rep() && View() == Entered(old(View()), n, site)
    {
      EnteredInStages(View(), n, site);
      SaveTask(site);
      LoadTask(n);
      GoOn();
    }

    /** schedule(), lines 133-138 */
    method Dequeue() returns (n: Tid)
      requires Rep() && ready != []
      modifies `first, `last, `ready
      ensures Rep() && n == old(ready)[0] != NULL && View() == old(View()).(ready := old(ready)[1..])
    {
      PopOk(Queue(next, first, last), ready);
      ListMembers(next, first, ready);
      n := first;
      first := next[n];
      if first == NULL {
        last := NULL;
      }
      ready := ready[1..];
    }

    /** schedule(), lines 142-155: the current task goes to the end of the queue if it can still run. */
    method PutBack()
      requires Rep() && Apart(ready, asleep, graveyard)
      requires Requeues(View()) ==> current !in ready && current !in asleep && current !in graveyard
      modifies `first, `last, `ready, `state, `next
      ensures Rep()
      ensures View() == if Requeues(old(View())) then Returned(old(View())) else old(View())
    {
      if At(state, current) == RUNNING || At(state, current) == READY {
        state := state[current := READY];
        Enqueue(current);
      }
    }

    /** schedule(), lines 133-155: take the first ready task, and put the current one back if it can still run. */
    method TakeFirst() returns (n: Tid)
      requires Rep() && Apart(ready, asleep, graveyard) && ready != []
      requires Requeues(View()) ==> current !in ready && current !in asleep && current !in graveyard
      modifies `first, `last, `ready, `timeUsed, `lastTick, `state, `next
      ensures Rep() && n == old(ready)[0] != NULL && View() == Taken(old(View()))
    {
      TailApart(ready, asleep, graveyard);
      n := Dequeue();
      UpdateTimeUsed();
      PutBack();
    }

    method RunNext(site: Resume)
      requires Rep() && Apart(ready, asleep, graveyard) && ready != [] && ready[0] != current
      requires Requeues(View()) ==> current !in ready && current !in asleep && current !in graveyard
      modifies this
      ensures Rep() && View() == SwitchTo(old(View()), site)
    {
      SwitchInStages(View(), site);
      var n := TakeFirst();
      SwitchToTask(n, site);
    }

    /** schedule(): `site` says which caller the current task will return into. */
    method Schedule(site: Resume)
      requires Rep() && (postpone == 0 ==> Placed(View()) && States(View()) && CanSwitch(View()))
      modifies this
      ensures Rep() && View() == SchedulerModel.Schedule(old(View()), site)
    {
      if postpone != 0 {
        postponed := true;
        return;
      }
      if first == NULL {
        return;
      }
      SwitchFacts(View());
      PlacedApart(View());
      RunNext(site);
    }

    /** unlock_scheduler(), lines 171-173: the outermost unlock with a request pending. The lock is free again. */
    method HonourRequest() returns (switched: bool)
      requires Rep() && postpone == 0 && Placed(View()) && States(View()) && phase == Normal
      modifies this
      ensures Rep() && switched == (old(ready) != [])
      ensures var m1 := old(View()).(flag := false); View() == if switched then SwitchTo(m1, InUnlock) else m1
    {
      postponed := false;
      LockIrrelevant(old(View()), 0, irqDisable, false, interrupts);
      switched := first != NULL;
      Schedule(InUnlock);
    }

    method UnlockScheduler()
      requires Rep() && postpone > 0
      requires postpone == 1 && postponed ==> Placed(View()) && States(View()) && phase == Normal
      modifies this
      ensures Rep() && View() == Unlock(old(View()))
    {
      LockIrrelevantIf(View(), postpone == 1 && postponed);
      if !(postpone == 1 && postponed) {
        ReleaseLock();
        return;
      }
      postpone := postpone - 1;
      var switched := HonourRequest();
      if switched {
        // the rest of this call is executed when the task is switched to again
        return;
      }
      LowerIrq();
    }

    /** create_kernel_task, lines 69 and 92 */
    method NumberTask(t: Tid)
      modifies `id, `currentPid
      ensures View() == old(View()).(ids := WithId(old(View()).ids, t))
    {
      currentPid := currentPid + 1;
      id := id[t := currentPid % WORD];
    }

    /** create_kernel_task, line 76: the control block is cleared. */
    method ClearTask(t: Tid)
      modifies `timeUsed, `wakeup, `history
      ensures View() == old(View()).(used := old(timeUsed)[t := 0], target := old(wakeup)[t := 0], h := Enrolled(old(history), t))
    {
      timeUsed, wakeup, history := timeUsed[t := 0], wakeup[t := 0], Enrolled(history, t);
    }

    /** create_kernel_task, lines 87 and 91: a stack from which the task will start. */
    method ForgeTask(t: Tid)
      modifies `state, `resume
      ensures View() == old(View()).(state := old(state)[t := READY], resume := old(resume)[t := NotStarted])
    {
      state, resume := state[t := READY], resume[t := NotStarted];
    }

    method InitControlBlock(t: Tid)
      modifies `state, `timeUsed, `wakeup, `resume, `id, `currentPid, `history
      ensures View() == Initialised(old(View()), t)
    {
      NumberTask(t);
      ClearTask(t);
      ForgeTask(t);
    }

    /** create_kernel_task, once the control block `t` and the stack have been allocated. */
    method EnqueueNew(t: Tid)
      requires Rep() && Apart(ready, asleep, graveyard) && t != NULL && t !in ready && t !in asleep && t !in graveyard
      requires !(postpone == 0 && postponed)
      modifies this
      ensures Rep() && View() == Create(old(View()), t)
    {
      LockScheduler();
      InitControlBlock(t);
      Enqueue(t);
      ReleaseLock();
    }

    method CreateKernelTask(t: Tid)
      requires Valid() && Enabled(View(), Created(t))
      modifies this
      ensures Rep() && View() == Create(old(View()), t)
    {
      PlacedApart(View());
      EnqueueNew(t);
    }

    /** micro_sleep_until, lines 19-20 */
    method AddSleeper()
      requires Rep() && current !in ready && current !in asleep && current !in graveyard
      modifies `next, `sleeping, `asleep, `phase
      ensures Rep() && View() == old(View()).(asleep := [current] + old(asleep), phase := SleepPushed)
    {
      PrependLists(current, sleeping);
      next, sleeping, asleep, phase := next[current := sleeping], current, [current] + asleep, SleepPushed;
      assert View() == old(View()).(asleep := asleep, phase := SleepPushed);
    }

    method SetWakeup(until: int)
      modifies `wakeup
      ensures View() == old(View()).(target := old(wakeup)[current := until])
    {
      wakeup := wakeup[current := until];
    }

    method PushAsleep(until: int)
      requires Rep() && current !in ready && current !in asleep && current !in graveyard && !(postpone == 0 && postponed)
      modifies this
      ensures Rep() && View() == SchedulerModel.PushAsleep(old(View()), until)
    {
      LockScheduler();
      SetWakeup(until);
      AddSleeper();
      ReleaseLock();
    }

    /** micro_sleep_until up to its unlock. */
    method MicroSleepUntil(until: int)
      requires Valid() && phase == Normal
      modifies this
      ensures Rep() && View() == SchedulerModel.PushAsleep(old(View()), until)
    {
      PlacedApart(View());
      PushAsleep(until);
    }

    /** micro_sleep up to the unlock in micro_sleep_until: the deadline is cut to 32 bits. */
    method MicroSleep(microSeconds: nat)
      requires Valid() && phase == Normal && 0 <= ticks
      modifies this
      ensures Rep() && View() == SchedulerModel.PushAsleep(old(View()), Deadline(old(ticks), microSeconds))
    {
      MicroSleepUntil((ticks + microSeconds) % WORD);
    }

    /** unblock_task */
    method UnblockTask(t: Tid)
      requires Rep() && Apart(ready, asleep, graveyard) && t != NULL && t !in ready && t !in asleep && t !in graveyard
      requires !(postpone == 0 && postponed)
      modifies `interrupts, `irqDisable, `postpone, `state, `next, `first, `last, `ready
      ensures Rep() && View() == Brief(old(View())).(ready := old(ready) + [t], state := old(state)[t := READY])
    {
      LockScheduler();
      state := state[t := READY];
      Enqueue(t);
      ReleaseLock();
    }

    /** What unlinking the sleeper `c` behind `p` does to the three lists. */
    lemma UnlinkLists(p: seq<Tid>, c: Tid, q: seq<Tid>)
      requires Rep() && Apart(ready, asleep, graveyard) && asleep == p + [c] + q
      ensures c in next && c != NULL && IsList(next, next[c], q)
      ensures p == [] ==> sleeping == c && IsList(next, next[c], p + q)
      ensures p != [] ==> var n := next[Tail(p) := next[c]];
              IsQueue(Queue(n, first, last), ready) && IsList(n, sleeping, p + q) && IsList(n, dead, graveyard)
    {
      UnlinkApart(ready, p, c, q, graveyard);
      ListUnlink(next, sleeping, p, c, q);
      ListMembers(next, sleeping, asleep);
      if p == [] {
        assert p + q == q;
      } else {
        assert Tail(p) in asleep;
        ApartNoDup(ready, asleep, graveyard);
        ListFrame(next, first, ready, Tail(p), next[c]);
        ListFrame(next, dead, graveyard, Tail(p), next[c]);
      }
    }

    /** internal_update_awoken_taskes, lines 48-53: unlink the sleeper `c`. */
    method Unlink(c: Tid, prev: Tid, ghost p: seq<Tid>, ghost q: seq<Tid>) returns (n: Tid)
      requires Rep() && Apart(ready, asleep, graveyard) && asleep == p + [c] + q && prev == Tail(p)
      modifies `next, `sleeping, `asleep
      ensures Rep() && View() == old(View()).(asleep := p + q) && n == if q == [] then NULL else q[0]
    {
      CurrentSleeper(p, c, q);
      UnlinkLists(p, c, q);
      n := next[c];
      if prev == NULL {
        sleeping := n;
      } else {
        next := next[prev := n];
      }
      asleep := p + q;
    }

    /** internal_update_awoken_taskes, lines 45-55: unlink the sleeper `c` and make it ready. */
    method WakeOne(c: Tid, prev: Tid, ghost p: seq<Tid>, ghost q: seq<Tid>) returns (n: Tid)
      requires Rep() && Apart(ready, asleep, graveyard) && asleep == p + [c] + q && prev == Tail(p)
      requires postpone > 0 && irqDisable > 0 && !interrupts
      modifies `interrupts, `irqDisable, `postpone, `state, `next, `first, `last, `ready, `sleeping, `asleep
      ensures Rep() && Apart(ready, asleep, graveyard) && n == if q == [] then NULL else q[0]
      ensures View() == old(View()).(asleep := p + q, ready := old(ready) + [c], state := old(state)[c := READY])
    {
      CurrentSleeper(p, c, q);
      UnlinkApart(ready, p, c, q, graveyard);
      n := Unlink(c, prev, p, q);
      AppendApart(ready, asleep, graveyard, c);
      UnblockTask(c);
    }

    /** Half-way through the loop of internal_update_awoken_taskes, which started from the machine `m`: of its
        sleepers `seen` have been walked and `rest` have not; `curr` is the next one and `prev` the last one that
        stays asleep. */
    ghost predicate Walking(m: Machine, seen: seq<Tid>, rest: seq<Tid>, curr: Tid, prev: Tid)
      reads this
    {
      && Rep() && Apart(ready, asleep, graveyard) && irqDisable > 0 && !interrupts
      && m.asleep == seen + rest && View() == Walked(m, seen, rest) && prev == Tail(Later(seen, m.target, m.now))
      && (if rest == [] then curr == NULL else curr == rest[0] != NULL)
    }

    /** The sleeper `curr` is due. */
    method VisitDue(curr: Tid, prev: Tid, ghost m: Machine, ghost seen: seq<Tid>, ghost rest: seq<Tid>) returns (n: Tid)
      requires Walking(m, seen, rest, curr, prev) && rest != [] && postpone > 0 && At(wakeup, curr) <= ticks
      modifies `interrupts, `irqDisable, `postpone, `state, `next, `first, `last, `ready, `sleeping, `asleep
      ensures Walking(m, seen + [curr], rest[1..], n, prev)
    {
      ghost var kept, q := Later(seen, wakeup, ticks), rest[1..];
      assert rest == [curr] + q && asleep == kept + [curr] + q && m.asleep == (seen + [curr]) + q;
      WalkedOver(m, seen, curr, q);
      CurrentSleeper(kept, curr, q);
      n := WakeOne(curr, prev, kept, q);
    }

    /** The sleeper `curr` stays asleep. */
    lemma VisitLater(curr: Tid, prev: Tid, m: Machine, seen: seq<Tid>, rest: seq<Tid>)
      requires Walking(m, seen, rest, curr, prev) && rest != [] && At(wakeup, curr) > ticks
      ensures curr in next && Walking(m, seen + [curr], rest[1..], next[curr], curr)
    {
      var kept, q := Later(seen, wakeup, ticks), rest[1..];
      assert rest == [curr] + q && asleep == kept + [curr] + q && m.asleep == (seen + [curr]) + q;
      WalkedPast(m, seen, curr, q);
      CurrentSleeper(kept, curr, q);
    }

    /** One round of that loop. */
    method Visit(curr: Tid, prev: Tid, ghost m: Machine, ghost seen: seq<Tid>, ghost rest: seq<Tid>) returns (n: Tid, p: Tid)
      requires Walking(m, seen, rest, curr, prev) && rest != [] && postpone > 0
      modifies `interrupts, `irqDisable, `postpone, `state, `next, `first, `last, `ready, `sleeping, `asleep
      ensures Walking(m, seen + [curr], rest[1..], n, p)
    {
      if At(wakeup, curr) <= ticks {
        n := VisitDue(curr, prev, m, seen, rest);
        p := prev;
      } else {
        VisitLater(curr, prev, m, seen, rest);
        p := curr;
        n := next[curr];
      }
    }

    /** The loop of internal_update_awoken_taskes: walk the sleep list once, waking whoever is due. */
    method WalkSleepers()
      requires Rep() && Apart(ready, asleep, graveyard) && postpone > 0 && irqDisable > 0 && !interrupts
      modifies `interrupts, `irqDisable, `postpone, `state, `next, `first, `last, `ready, `sleeping, `asleep
      ensures Rep() && View() == Awoken(old(View()))
    {
      ghost var m := View();
      var curr, prev := sleeping, NULL;
      ghost var seen, rest := [], asleep;
      StartWalk();
      while curr != NULL
        invariant Walking(m, seen, rest, curr, prev)
        decreases |rest|
      {
        ghost var c := curr;
        curr, prev := Visit(curr, prev, m, seen, rest);
        seen, rest := seen + [c], rest[1..];
      }
      EndWalk(m, seen, rest, curr, prev);
    }

    lemma StartWalk()
      requires Rep() && Apart(ready, asleep, graveyard) && irqDisable > 0 && !interrupts
      ensures Walking(View(), [], asleep, sleeping, NULL)
    {
      WalkedNone(View());
    }

    lemma EndWalk(m: Machine, seen: seq<Tid>, rest: seq<Tid>, curr: Tid, prev: Tid)
      requires Walking(m, seen, rest, curr, prev) && curr == NULL
      ensures View() == Awoken(m)
    {
      WalkedAll(m, seen);
    }

    /** Following `next` from a sleeper. */
    lemma CurrentSleeper(p: seq<Tid>, c: Tid, q: seq<Tid>)
      requires Rep() && asleep == p + [c] + q
      ensures c in next && c != NULL && next[c] == (if q == [] then NULL else q[0]) && (q != [] ==> q[0] != NULL)
      ensures p != [] ==> Tail(p) != NULL
    {
      ListMembers(next, sleeping, asleep);
      ListSuffix(next, sleeping, p + [c], q);
      assert Tail(p + [c]) == c && c in asleep;
      if p != [] { assert Tail(p) in asleep; }
      if q != [] { assert q[0] in asleep; }
    }

    method CountTick()
      modifies `ticks, `history
      ensures View() == Counted(old(View()))
    {
      ticks := ticks + 1;
      history := history.(ran := history.ran[current := At(history.ran, current) + 1]);
    }

    /** internal_update_awoken_taskes */
    method UpdateAwoken()
      requires Rep() && Apart(ready, asleep, graveyard) && !(postpone == 0 && postponed) && irqDisable >= 0
      modifies `interrupts, `irqDisable, `postpone, `state, `next, `first, `last, `ready, `sleeping, `asleep
      ensures Rep() && View() == Brief(Awoken(old(View())))
    {
      LockScheduler();
      WalkSleepers();
      ReleaseLock();
    }

    /** irq_0_handler: the tick counter and, through the installed event, the sleepers. */
    method HandleTick()
      requires Rep() && Apart(ready, asleep, graveyard) && !(postpone == 0 && postponed) && irqDisable >= 0
      modifies this
      ensures Rep() && View() == Brief(Awoken(Counted(old(View()))))
    {
      CountTick();
      UpdateAwoken();
    }

    /** The processor turns interrupts off on the way into the handler, and iret restores the flag. */
    method TickOnce()
      requires Rep() && Apart(ready, asleep, graveyard) && !(postpone == 0 && postponed) && irqDisable >= 0
      modifies this
      ensures Rep() && View() == Tick(old(View()))
    {
      TickInStages(View());
      var flag := interrupts;
      interrupts := false;
      HandleTick();
      interrupts := flag;
    }

    method TimerTick()
      requires Valid() && postpone == 0
      modifies this
      ensures Rep() && View() == Tick(old(View()))
    {
      PlacedApart(View());
      TickOnce();
    }

    method SetBlocked(reason: int)
      modifies `state, `phase
      ensures View() == old(View()).(state := old(state)[current := reason],
        phase := if old(phase) == SleepPushed then SleepBlocked else Exiting)
    {
      state := state[current := reason];
      phase := if phase == SleepPushed then SleepBlocked else Exiting;
    }

    /** block_task up to its unlock. */
    method BlockTask(reason: int)
      requires Rep() && !(postpone == 0 && postponed)
      modifies `interrupts, `irqDisable, `postpone, `state, `phase
      ensures Rep() && View() == Block(old(View()), reason)
    {
      LockScheduler();
      SetBlocked(reason);
      ReleaseLock();
    }

    /** The head of the dead list, lines 203-204 of scheduler.c and 86-87 of task.c. */
    method AddDead()
      requires Rep() && current !in ready && current !in asleep && current !in graveyard
      modifies `next, `dead, `graveyard, `phase
      ensures Rep() && View() == old(View()).(dead := [current] + old(graveyard), phase := ExitPushed)
    {
      PrependLists(current, dead);
      next, dead, graveyard, phase := next[current := dead], current, [current] + graveyard, ExitPushed;
      assert View() == old(View()).(dead := graveyard, phase := ExitPushed);
    }

    method SetDead()
      modifies `state, `phase
      ensures View() == old(View()).(state := old(state)[current := DEAD], phase := Exiting)
    {
      state, phase := state[current := DEAD], Exiting;
    }

    method AddKilled()
      requires Rep() && current !in ready && current !in asleep && current !in graveyard
      modifies `next, `dead, `graveyard, `state, `phase
      ensures Rep()
      ensures View() == old(View()).(dead := [current] + old(graveyard), state := old(state)[current := DEAD], phase := Exiting)
    {
      AddDead();
      SetDead();
    }

    /** mark_task_for_death up to its unlock. */
    method MarkTaskForDeath()
      requires Valid() && phase == Normal
      modifies this
      ensures Rep() && View() == Die(old(View()))
    {
      PlacedApart(View());
      LockScheduler();
      AddKilled();
      ReleaseLock();
    }

    /** terminate_task up to its unlock. */
    method TerminateTask()
      requires Valid() && phase == Normal
      modifies this
      ensures Rep() && View() == PushDead(old(View()))
    {
      PlacedApart(View());
      LockScheduler();
      AddDead();
      ReleaseLock();
    }

    /** dead_tasks_cleanup, lines 112-118 */
    method BuryDead()
      requires Rep() && Apart(ready, asleep, graveyard)
      modifies `next, `dead, `graveyard, `history
      ensures Rep() && View() == old(View()).(dead := [], h := Buried(old(history), old(graveyard), timeUsed))
      ensures forall t :: t in old(graveyard) ==> t !in next
    {
      FreeAll();
      ForgetDead();
    }

    method ForgetDead()
      requires IsQueue(Queue(next, first, last), ready) && IsList(next, sleeping, asleep) && current != NULL
      modifies `dead, `graveyard, `history
      ensures Rep() && View() == old(View()).(dead := [], h := Buried(old(history), old(graveyard), timeUsed))
    {
      dead, graveyard, history := NULL, [], Buried(history, graveyard, timeUsed);
    }

    /** dead_tasks_cleanup: after free_task a control block is no longer there, and nothing points to it. */
    method DeadTasksCleanup()
      requires Valid() && Enabled(View(), Cleaned)
      modifies this
      ensures Rep() && View() == Cleanup(old(View()))
      ensures forall t :: t in old(graveyard) ==> t !in next
    {
      PlacedApart(View());
      LockScheduler();
      BuryDead();
      ReleaseLock();
    }

    method FreeAll()
      requires Rep() && Apart(ready, asleep, graveyard)
      modifies `next
      ensures IsQueue(Queue(next, first, last), ready) && IsList(next, sleeping, asleep)
      ensures forall t :: t in graveyard ==> t !in next
    {
      ApartNoDup(ready, asleep, graveyard);
      var node := dead;
      ghost var gone, rest := [], graveyard;
      while node != NULL
        invariant graveyard == gone + rest && NoDup(rest)
        invariant IsQueue(Queue(next, first, last), ready) && IsList(next, sleeping, asleep) && IsList(next, node, rest)
        invariant forall t :: t in gone ==> t !in next
        decreases |rest|
      {
        var n := next[node];
        TailNoDup(rest);
        assert node in graveyard;
        ListRemove(next, first, ready, node);
        ListRemove(next, sleeping, asleep, node);
        ListRemove(next, n, rest[1..], node);
        next := next - {node};
        assert rest == [node] + rest[1..];
        gone, rest := gone + [node], rest[1..];
        node := n;
      }
    }

    /** One of the loops of get_task_state: the first task of a list with this id, or NULL. */
    method FindTask(head: Tid, pid: int, ghost q: seq<Tid>) returns (t: Tid)
      requires IsList(next, head, q)
      ensures t == NULL ==> forall s :: s in q ==> At(id, s) != pid
      ensures t != NULL ==> t in q && At(id, t) == pid
    {
      t := head;
      ghost var seen, rest := [], q;
      while t != NULL
        invariant q == seen + rest && IsList(next, t, rest) && forall s :: s in seen ==> At(id, s) != pid
        decreases |rest|
      {
        assert t in q;
        if At(id, t) == pid {
          return;
        }
        assert rest == [t] + rest[1..];
        seen, rest := seen + [t], rest[1..];
        t := next[t];
      }
    }

    /** get_task_state: the state of a task with this id, in whichever list it is, or TASK_STATE_NOT_FOUND. */
    method GetTaskState(pid: int) returns (r: int)
      requires Valid()
      ensures (forall t :: t in history.alive ==> At(id, t) != pid) ==> r == -1
      ensures (exists t :: t in history.alive && At(id, t) == pid) ==> Answers(View(), pid, r)
      ensures DistinctIds(View()) ==> forall t :: t in history.alive && At(id, t) == pid ==> r == At(state, t)
    {
      forall t ensures t in history.alive <==> t == current || t in ready || t in asleep || t in graveyard { InPlaces(View(), t); }
      if At(id, current) == pid {
        return At(state, current);
      }
      var t := FindTask(first, pid, ready);
      if t == NULL {
        t := FindTask(sleeping, pid, asleep);
      }
      if t == NULL {
        t := FindTask(dead, pid, graveyard);
      }
      if t != NULL {
        return At(state, t);
      }
      return -1;
    }
  }
}
