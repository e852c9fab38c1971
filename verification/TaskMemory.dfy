/** Tasks in memory: control blocks and stacks are blocks of the kernel heap. create_kernel_task takes them from
    kmalloc, and free_task gives them back. */
module TaskMemory {
  import opened TaskLists
  import opened SchedulerModel
  import opened SchedulerInvariants
  import opened SchedulerRuns
  import opened ByteStore
  import Heap
  import Scheduler
  import HeapBlocks
  import HeapRuns
  import opened HeapClients

  type Client = HeapRuns.Client

  /** sizeof(struct TaskControlBlock), and KERNEL_STACK_SIZE. */
  const CONTROL_BLOCK := 44
  const STACK := 16384

  /** The scheduler, the heap, and the `stack_base` of each task but the first. */
  datatype World = World(m: Machine, c: Client, stack: map<Tid, nat>)

  /** Every control block is a live block of the heap, and so is every stack; no two tasks share one. */
  ghost predicate Lodged(alive: seq<Tid>, root: Tid, c: Client, stack: map<Tid, nat>) {
    && HeapRuns.Consistent(c)
    && (forall t :: t in alive ==> Named(c.live, t, CONTROL_BLOCK))
    && (forall t :: t in alive && t != root ==> t in stack && Named(c.live, stack[t], STACK))
    && forall t, u :: t in alive && u in alive && t != u && t != root && u != root ==> stack[t] != stack[u]
  }

  ghost predicate Housed(w: World) {
    Lodged(w.m.h.alive, w.m.h.root, w.c, w.stack)
  }

  // ---------------------------------------------------------------- pointers

  /** A pointer is live with one size only. */
  lemma OneSize(c: Client, p: nat, x: nat, y: nat)
    requires HeapRuns.Consistent(c) && Named(c.live, p, x) && Named(c.live, p, y)
    ensures x == y
  {
    var a :| a in c.live && HeapRuns.Pointer(a) == p && c.live[a] == x;
    var b :| b in c.live && HeapRuns.Pointer(b) == p && c.live[b] == y;
    SamePointer(c, a, b);
  }

  /** A call keeps the pointers it is not made on. */
  lemma CallKeeps(c: Client, call: HeapRuns.Call, d: Client, p: nat, size: nat)
    requires HeapRuns.Consistent(c) && HeapRuns.Called(c, call, d) && Named(c.live, p, size)
    requires call.Free? || call.Realloc? ==> HeapRuns.Pointer(call.b) != p
    ensures Named(d.live, p, size)
  {
    var b :| b in c.live && HeapRuns.Pointer(b) == p && c.live[b] == size;
    if !call.Write? {
      HeapRuns.EntryKept(c, call, d, b);
    }
    assert b in d.live && d.live[b] == size;
  }

  /** A kmalloc that returned `r`, however many pages there were. */
  ghost predicate Mallocs(c: Client, size: nat, r: nat, d: Client) {
    exists supply :: HeapRuns.Called(c, HeapRuns.Call.Malloc(size, supply, r), d)
  }

  lemma MallocKeeps(c: Client, size: nat, r: nat, d: Client, p: nat, n: nat)
    requires HeapRuns.Consistent(c) && Mallocs(c, size, r, d) && Named(c.live, p, n)
    ensures Named(d.live, p, n)
  {
    var supply :| HeapRuns.Called(c, HeapRuns.Call.Malloc(size, supply, r), d);
    CallKeeps(c, HeapRuns.Call.Malloc(size, supply, r), d, p, n);
  }

  /** What kmalloc returns was nobody's. */
  lemma FreshPointer(c: Client, size: nat, r: nat, d: Client, other: nat)
    requires HeapRuns.Consistent(c) && Mallocs(c, size, r, d) && r != 0
    ensures HeapRuns.Consistent(d) && Named(d.live, r, size) && !Named(c.live, r, other)
  {
    var supply :| HeapRuns.Called(c, HeapRuns.Call.Malloc(size, supply, r), d);
    HeapRuns.StepConsistent(c, HeapRuns.Call.Malloc(size, supply, r), d);
    NewPointer(c.v, c.live, size, d.v, r);
    var n := Heap.NewBlock(c.v, size);
    assert n in d.live && d.live[n] == size;
    if Named(c.live, r, other) {
      var b :| b in c.live && HeapRuns.Pointer(b) == r && c.live[b] == other;
      SamePointer(d, b, n);
    }
  }

  // ---------------------------------------------------------------- creating a task

  /** The two allocations of create_kernel_task. Without either the kernel aborts. */
  ghost predicate Allocated(c: Client, t: nat, s: nat, e: Client) {
    exists d :: AllocatedVia(c, t, d, s, e)
  }

  ghost predicate AllocatedVia(c: Client, t: nat, d: Client, s: nat, e: Client) {
    Mallocs(c, CONTROL_BLOCK, t, d) && t != 0 && Mallocs(d, STACK, s, e) && s != 0
  }

  lemma AllocatedNames(c: Client, t: nat, d: Client, s: nat, e: Client, p: nat, size: nat)
    requires HeapRuns.Consistent(c) && AllocatedVia(c, t, d, s, e) && Named(c.live, p, size)
    ensures HeapRuns.Consistent(e) && Named(e.live, p, size) && p != t && p != s
  {
    FreshPointer(c, CONTROL_BLOCK, t, d, size);
    MallocKeeps(c, CONTROL_BLOCK, t, d, p, size);
    FreshPointer(d, STACK, s, e, size);
    MallocKeeps(d, STACK, s, e, p, size);
  }

  lemma AllocatedNew(c: Client, t: nat, d: Client, s: nat, e: Client)
    requires HeapRuns.Consistent(c) && AllocatedVia(c, t, d, s, e)
    ensures HeapRuns.Consistent(e) && Named(e.live, t, CONTROL_BLOCK) && Named(e.live, s, STACK)
  {
    FreshPointer(c, CONTROL_BLOCK, t, d, 0);
    FreshPointer(d, STACK, s, e, CONTROL_BLOCK);
    MallocKeeps(d, STACK, s, e, t, CONTROL_BLOCK);
  }

  /** The address kmalloc gives for a control block is in service nowhere: the step is possible in every run. */
  lemma SpawnEnabled(w: World, t: nat, s: nat, e: Client)
    requires Inv(w.m) && Housed(w) && w.m.phase == Normal && Allocated(w.c, t, s, e)
    ensures Enabled(w.m, Created(t))
  {
    var d :| AllocatedVia(w.c, t, d, s, e);
    InPlaces(w.m, t);
    if t in w.m.h.alive { AllocatedNames(w.c, t, d, s, e, t, CONTROL_BLOCK); }
  }

  /** All pointers that were live still are, and differ from `t` and `s`. */
  ghost predicate KeptBeside(c: Client, e: Client, t: nat, s: nat) {
    forall p, size :: Named(c.live, p, size) ==> Named(e.live, p, size) && p != t && p != s
  }

  lemma AllocatedBeside(c: Client, t: nat, d: Client, s: nat, e: Client)
    requires HeapRuns.Consistent(c) && AllocatedVia(c, t, d, s, e)
    ensures HeapRuns.Consistent(e) && KeptBeside(c, e, t, s) && Named(e.live, t, CONTROL_BLOCK) && Named(e.live, s, STACK)
  {
    AllocatedNew(c, t, d, s, e);
    forall p, size | Named(c.live, p, size) ensures Named(e.live, p, size) && p != t && p != s {
      AllocatedNames(c, t, d, s, e, p, size);
    }
  }

  lemma LodgedMore(alive: seq<Tid>, root: Tid, c: Client, stack: map<Tid, nat>, t: nat, s: nat, e: Client)
    requires Lodged(alive, root, c, stack) && t !in alive && root in alive
    requires HeapRuns.Consistent(e) && KeptBeside(c, e, t, s) && Named(e.live, t, CONTROL_BLOCK) && Named(e.live, s, STACK)
    ensures Lodged(alive + [t], root, e, stack[t := s])
  {
    forall u | u in alive ensures Named(e.live, u, CONTROL_BLOCK) {}
    forall u | u in alive && u != root ensures Named(e.live, stack[u], STACK) && stack[u] != s {
      assert Named(c.live, stack[u], STACK);
    }
  }

  lemma SpawnHoused(w: World, t: nat, s: nat, e: Client)
    requires Inv(w.m) && Housed(w) && Enabled(w.m, Created(t)) && Allocated(w.c, t, s, e)
    ensures Housed(World(Create(w.m, t), e, w.stack[t := s]))
  {
    InPlaces(w.m, t);
    InPlaces(w.m, w.m.h.root);
    var d :| AllocatedVia(w.c, t, d, s, e);
    AllocatedBeside(w.c, t, d, s, e);
    LodgedMore(w.m.h.alive, w.m.h.root, w.c, w.stack, t, s, e);
  }

  // ---------------------------------------------------------------- cleaning up

  ghost predicate FreeOf(c: Client, p: nat, d: Client) {
    exists b :: b in c.live && HeapRuns.Pointer(b) == p && HeapRuns.Called(c, HeapRuns.Call.Free(b), d)
  }

  /** free_task: the stack, then the control block. */
  ghost predicate FreesTask(c: Client, t: Tid, s: nat, d: Client) {
    exists y :: FreeOf(c, s, y) && FreeOf(y, t, d)
  }

  ghost predicate FreesTasks(c: Client, q: seq<Tid>, stack: map<Tid, nat>, d: Client)
    decreases |q|
  {
    if q == [] then c == d
    else q[0] in stack && exists x :: FreesTask(c, q[0], stack[q[0]], x) && FreesTasks(x, q[1..], stack, d)
  }

  lemma FreeKeeps(c: Client, p: nat, d: Client, q: nat, size: nat)
    requires HeapRuns.Consistent(c) && FreeOf(c, p, d)
    ensures HeapRuns.Consistent(d) && (q != p && Named(c.live, q, size) ==> Named(d.live, q, size))
  {
    var b :| b in c.live && HeapRuns.Pointer(b) == p && HeapRuns.Called(c, HeapRuns.Call.Free(b), d);
    HeapRuns.StepConsistent(c, HeapRuns.Call.Free(b), d);
    if q != p && Named(c.live, q, size) { CallKeeps(c, HeapRuns.Call.Free(b), d, q, size); }
  }

  lemma TaskKeeps(c: Client, t: Tid, s: nat, d: Client, p: nat, size: nat)
    requires HeapRuns.Consistent(c) && FreesTask(c, t, s, d)
    ensures HeapRuns.Consistent(d) && (p != t && p != s && Named(c.live, p, size) ==> Named(d.live, p, size))
  {
    var y :| FreeOf(c, s, y) && FreeOf(y, t, d);
    FreeKeeps(c, s, y, p, size);
    FreeKeeps(y, t, d, p, size);
  }

  /** A pointer that none of the tasks in `q` has. */
  ghost predicate Apart(q: seq<Tid>, stack: map<Tid, nat>, p: nat) {
    forall t :: t in q ==> p != t && (t in stack ==> p != stack[t])
  }

  lemma {:induction false} TasksKeep(c: Client, q: seq<Tid>, stack: map<Tid, nat>, d: Client, p: nat, size: nat)
    requires HeapRuns.Consistent(c) && FreesTasks(c, q, stack, d)
    ensures HeapRuns.Consistent(d) && (Apart(q, stack, p) && Named(c.live, p, size) ==> Named(d.live, p, size))
    decreases |q|
  {
    if q != [] {
      var x :| FreesTask(c, q[0], stack[q[0]], x) && FreesTasks(x, q[1..], stack, d);
      TaskKeeps(c, q[0], stack[q[0]], x, p, size);
      TasksKeep(x, q[1..], stack, d, p, size);
      if Apart(q, stack, p) { ApartTail(q, stack, p); }
    }
  }

  lemma ApartTail(q: seq<Tid>, stack: map<Tid, nat>, p: nat)
    requires q != [] && Apart(q, stack, p)
    ensures p != q[0] && (q[0] in stack ==> p != stack[q[0]]) && Apart(q[1..], stack, p)
  {
    assert q[0] in q;
    forall t | t in q[1..] ensures t in q { assert q == [q[0]] + q[1..]; }
  }

  /** No pointer of a task that stays belongs to one that goes. */
  lemma StaysApart(w: World, q: seq<Tid>, t: Tid)
    requires Inv(w.m) && Housed(w) && w.m.h.root !in q && (forall u :: u in q ==> u in w.m.h.alive) && t in w.m.h.alive && t !in q
    ensures Apart(q, w.stack, t) && (t != w.m.h.root ==> Apart(q, w.stack, w.stack[t]))
  {
    forall u | u in q
      ensures t != u && w.stack[u] != t && (t != w.m.h.root ==> w.stack[t] != u && w.stack[t] != w.stack[u])
    {
      if w.stack[u] == t { OneSize(w.c, t, CONTROL_BLOCK, STACK); }
      if t != w.m.h.root && w.stack[t] == u { OneSize(w.c, u, CONTROL_BLOCK, STACK); }
    }
  }

  lemma DeadAlive(m: Machine)
    requires Placed(m) && m.phase == Normal
    ensures m.h.root !in m.dead && forall u :: u in m.dead ==> u in m.h.alive
  {
    InPlaces(m, m.h.root);
    forall u | u in m.dead ensures u in m.h.alive { InPlaces(m, u); }
  }

  lemma StillAlive(m: Machine, t: Tid)
    requires Placed(m) && t in Cleanup(m).h.alive
    ensures t in m.h.alive && t !in m.dead
  {
    CleanupPlace(m, t);
    assert Count(m.h.alive, t) <= 1;
  }

  lemma BuryHoused(w: World, d: Client)
    requires Inv(w.m) && Housed(w) && w.m.phase == Normal && FreesTasks(w.c, w.m.dead, w.stack, d)
    ensures Housed(World(Cleanup(w.m), d, w.stack))
  {
    DeadAlive(w.m);
    TasksKeep(w.c, w.m.dead, w.stack, d, 0, 0);
    forall t | t in Cleanup(w.m).h.alive ensures t in w.m.h.alive { StillAlive(w.m, t); }
    forall t | t in Cleanup(w.m).h.alive
      ensures Named(d.live, t, CONTROL_BLOCK) && (t != w.m.h.root ==> Named(d.live, w.stack[t], STACK))
    {
      StillAlive(w.m, t);
      StaysApart(w, w.m.dead, t);
      TasksKeep(w.c, w.m.dead, w.stack, d, t, CONTROL_BLOCK);
      if t != w.m.h.root { TasksKeep(w.c, w.m.dead, w.stack, d, w.stack[t], STACK); }
    }
  }

  /** A pointer that is not live. */
  ghost predicate Vacant(c: Client, p: nat) {
    forall size :: !Named(c.live, p, size)
  }

  lemma FreeVacates(c: Client, p: nat, d: Client, q: nat)
    requires HeapRuns.Consistent(c) && FreeOf(c, p, d)
    ensures q == p || Vacant(c, q) ==> Vacant(d, q)
  {
    var b :| b in c.live && HeapRuns.Pointer(b) == p && HeapRuns.Called(c, HeapRuns.Call.Free(b), d);
    forall e | e in d.live ensures e in c.live && HeapRuns.Pointer(e) != p && d.live[e] == c.live[e] {
      if HeapRuns.Pointer(e) == p { SamePointer(c, e, b); }
    }
    forall size ensures Named(d.live, q, size) ==> q != p && Named(c.live, q, size) {}
  }

  lemma TaskVacates(c: Client, t: Tid, s: nat, d: Client, q: nat)
    requires HeapRuns.Consistent(c) && FreesTask(c, t, s, d)
    ensures HeapRuns.Consistent(d) && (q == t || q == s || Vacant(c, q) ==> Vacant(d, q))
  {
    var y :| FreeOf(c, s, y) && FreeOf(y, t, d);
    FreeKeeps(c, s, y, q, 0);
    FreeVacates(c, s, y, q);
    FreeKeeps(y, t, d, q, 0);
    FreeVacates(y, t, d, q);
  }

  lemma {:induction false} TasksVacate(c: Client, q: seq<Tid>, stack: map<Tid, nat>, d: Client, p: nat)
    requires HeapRuns.Consistent(c) && FreesTasks(c, q, stack, d)
    ensures Vacant(c, p) || !Apart(q, stack, p) ==> Vacant(d, p)
    decreases |q|
  {
    if q != [] {
      var x :| FreesTask(c, q[0], stack[q[0]], x) && FreesTasks(x, q[1..], stack, d);
      TaskVacates(c, q[0], stack[q[0]], x, p);
      TasksVacate(x, q[1..], stack, d, p);
      if p != q[0] && p != stack[q[0]] && Apart(q[1..], stack, p) { ApartHead(q, stack, p); }
    }
  }

  lemma ApartHead(q: seq<Tid>, stack: map<Tid, nat>, p: nat)
    requires q != [] && q[0] in stack && p != q[0] && p != stack[q[0]] && Apart(q[1..], stack, p)
    ensures Apart(q, stack, p)
  {
    assert q == [q[0]] + q[1..];
  }

  /** A cleanup really gives the memory back: of a dead task neither control block nor stack is live any more. */
  lemma BuryFrees(w: World, d: Client, t: Tid)
    requires Inv(w.m) && Housed(w) && w.m.phase == Normal && FreesTasks(w.c, w.m.dead, w.stack, d) && t in w.m.dead
    ensures t in w.stack && Vacant(d, t) && Vacant(d, w.stack[t])
  {
    DeadAlive(w.m);
    TasksVacate(w.c, w.m.dead, w.stack, d, t);
    TasksVacate(w.c, w.m.dead, w.stack, d, w.stack[t]);
  }

  // ---------------------------------------------------------------- whole runs

  /** A step of the scheduler that neither creates nor cleans up; a creation; a cleanup; a call on the heap by
      someone else, or a write. */
  datatype Event = Step(op: Op) | Spawn(t: Tid, s: nat) | Bury | Other(call: HeapRuns.Call)

  /** Others free and reallocate only what is no task's. */
  ghost predicate Spares(w: World, call: HeapRuns.Call) {
    call.Free? || call.Realloc? ==> Apart(w.m.h.alive, w.stack, HeapRuns.Pointer(call.b))
  }

  ghost predicate WorldStep(w: World, e: Event, x: World) {
    match e
    case Step(op) => !op.Created? && !op.Cleaned? && Enabled(w.m, op) && x == w.(m := Next(w.m, op))
    case Spawn(t, s) =>
      w.m.phase == Normal && Allocated(w.c, t, s, x.c) && x.m == Create(w.m, t) && x.stack == w.stack[t := s]
    case Bury =>
      w.m.phase == Normal && FreesTasks(w.c, w.m.dead, w.stack, x.c) && x.m == Cleanup(w.m) && x.stack == w.stack
    case Other(call) => HeapRuns.Called(w.c, call, x.c) && Spares(w, call) && x.m == w.m && x.stack == w.stack
  }

  lemma OtherHoused(w: World, call: HeapRuns.Call, d: Client)
    requires Housed(w) && HeapRuns.Called(w.c, call, d) && Spares(w, call)
    ensures Housed(w.(c := d))
  {
    HeapRuns.StepConsistent(w.c, call, d);
    forall t | t in w.m.h.alive ensures Named(d.live, t, CONTROL_BLOCK) { CallKeeps(w.c, call, d, t, CONTROL_BLOCK); }
    forall t | t in w.m.h.alive && t != w.m.h.root ensures Named(d.live, w.stack[t], STACK) {
      CallKeeps(w.c, call, d, w.stack[t], STACK);
    }
  }

  lemma SameAlive(m: Machine, op: Op)
    requires Enabled(m, op) && !op.Created? && !op.Cleaned?
    ensures Next(m, op).h.alive == m.h.alive && Next(m, op).h.root == m.h.root
  {
  }

  /** What the scheduler does at an event, if anything. */
  function Does(e: Event): seq<Op> {
    match e
    case Step(op) => [op]
    case Spawn(t, _) => [Created(t)]
    case Bury => [Cleaned]
    case Other(_) => []
  }

  /** Every event keeps the tasks housed, and is an enabled step of the scheduler or none. */
  lemma EventOk(w: World, e: Event, x: World)
    requires Inv(w.m) && Housed(w) && WorldStep(w, e, x)
    ensures Inv(x.m) && Housed(x)
    ensures if Does(e) == [] then x.m == w.m else Enabled(w.m, Does(e)[0]) && x.m == Next(w.m, Does(e)[0])
  {
    match e
    case Step(op) =>
      StepInv(w.m, op);
      SameAlive(w.m, op);
    case Spawn(t, s) =>
      SpawnEnabled(w, t, s, x.c);
      StepInv(w.m, Created(t));
      SpawnHoused(w, t, s, x.c);
    case Bury =>
      StepInv(w.m, Cleaned);
      BuryHoused(w, x.c);
    case Other(call) => OtherHoused(w, call, x.c);
  }

  ghost predicate WorldRun(ws: seq<World>, es: seq<Event>) {
    |ws| == |es| + 1 && forall i :: 0 <= i < |es| ==> EventAt(ws, es, i)
  }

  ghost predicate EventAt(ws: seq<World>, es: seq<Event>, i: nat)
    requires |ws| == |es| + 1 && i < |es|
  {
    WorldStep(ws[i], es[i], ws[i + 1])
  }

  /** In every run of scheduler and heap together, with addresses coming from kmalloc, the scheduler's part is a run
      of its own, and control blocks and stacks are live blocks of the heap throughout. */
  lemma {:induction false} WorldOk(ws: seq<World>, es: seq<Event>, boot: Tid, now: int, i: nat)
    requires WorldRun(ws, es) && i < |ws| && boot != NULL && ws[0].m == Initial(boot, now) && Housed(ws[0])
    ensures Inv(ws[i].m) && Housed(ws[i]) && Reachable(boot, now, ws[i].m)
  {
    if i == 0 {
      InitialInv(boot, now);
      ReachInitial(boot, now);
    } else {
      WorldOk(ws, es, boot, now, i - 1);
      assert EventAt(ws, es, i - 1);
      EventOk(ws[i - 1], es[i - 1], ws[i]);
      if Does(es[i - 1]) != [] { ReachNext(boot, now, ws[i - 1].m, Does(es[i - 1])[0]); }
    }
  }

  /** multitasking_initialize: the control block of the boot task is the first. */
  lemma BootHoused(c: Client, boot: Tid, d: Client, now: int)
    requires HeapRuns.Consistent(c) && Mallocs(c, CONTROL_BLOCK, boot, d) && boot != 0
    ensures Housed(World(Initial(boot, now), d, map[]))
  {
    FreshPointer(c, CONTROL_BLOCK, boot, d, 0);
  }

  ghost predicate Disjoint(p: nat, m: nat, q: nat, n: nat) {
    p + m <= q || q + n <= p
  }

  lemma NamedDisjoint(c: Client, p: nat, m: nat, q: nat, n: nat)
    requires HeapRuns.Consistent(c) && Named(c.live, p, m) && Named(c.live, q, n) && p != q
    ensures Disjoint(p, m, q, n)
  {
    var a :| a in c.live && HeapRuns.Pointer(a) == p && c.live[a] == m;
    var b :| b in c.live && HeapRuns.Pointer(b) == q && c.live[b] == n;
    HeapRuns.LiveDisjoint(c, a, b);
  }

  /** In all of them the control blocks and stacks of different tasks do not overlap, nor do those of one task. */
  lemma TasksDisjoint(w: World, t: Tid, u: Tid)
    requires Housed(w) && t in w.m.h.alive && u in w.m.h.alive
    ensures t != u ==> Disjoint(t, CONTROL_BLOCK, u, CONTROL_BLOCK)
    ensures u != w.m.h.root ==> Disjoint(t, CONTROL_BLOCK, w.stack[u], STACK)
    ensures t != u && t != w.m.h.root && u != w.m.h.root ==> Disjoint(w.stack[t], STACK, w.stack[u], STACK)
  {
    if t != u { NamedDisjoint(w.c, t, CONTROL_BLOCK, u, CONTROL_BLOCK); }
    if u != w.m.h.root {
      if t == w.stack[u] { OneSize(w.c, t, CONTROL_BLOCK, STACK); }
      NamedDisjoint(w.c, t, CONTROL_BLOCK, w.stack[u], STACK);
    }
    if t != u && t != w.m.h.root && u != w.m.h.root { NamedDisjoint(w.c, w.stack[t], STACK, w.stack[u], STACK); }
  }

  // ---------------------------------------------------------------- on the real data

  /** kmalloc cannot serve the size. */
  ghost predicate Unserved(v: Heap.HeapView, size: nat, supply: nat) {
    !Heap.NoWrap(v, size) || Heap.Denied(v, size, supply)
  }

  /** One of the two allocations of create_kernel_task fails. */
  ghost predicate NoMemory(c: Client, supply1: nat, supply2: nat) {
    Unserved(c.v, CONTROL_BLOCK, supply1) || exists t, d :: SecondFails(c, t, d, supply2)
  }

  ghost predicate SecondFails(c: Client, t: nat, d: Client, supply: nat) {
    t != 0 && Mallocs(c, CONTROL_BLOCK, t, d) && Unserved(d.v, STACK, supply)
  }

  /** With pages to spare and the break well below 4 GB neither does. */
  lemma MemoryForTask(c: Client, supply1: nat, supply2: nat)
    requires HeapRuns.Consistent(c) && supply1 >= WORD / 4096 && supply2 >= WORD / 4096
    requires c.v.brk + 2 * CONTROL_BLOCK + STACK + 4095 < WORD
    ensures !NoMemory(c, supply1, supply2)
  {
    CanGrow(c.v, CONTROL_BLOCK, supply1);
    forall t, d ensures !SecondFails(c, t, d, supply2) {
      if t != 0 && Mallocs(c, CONTROL_BLOCK, t, d) {
        var supply :| HeapRuns.Called(c, HeapRuns.Call.Malloc(CONTROL_BLOCK, supply, t), d);
        BreakAfter(c.v, CONTROL_BLOCK, d.v, t);
        CanGrow(d.v, STACK, supply2);
      }
    }
  }

  lemma CanGrow(v: Heap.HeapView, size: nat, supply: nat)
    requires size <= STACK && 0xC000_0000 <= v.start <= v.brk && v.brk + size + 15 + 4095 < WORD && supply >= WORD / 4096
    ensures !Unserved(v, size, supply)
  {
    HeapBlocks.AlignExact(size);
    HeapRuns.PlentyOfPages(v.brk, HeapBlocks.Align(size), supply);
  }

  lemma BreakAfter(v: Heap.HeapView, size: nat, w: Heap.HeapView, r: nat)
    requires Heap.MallocStep(v, size, w, r) && size <= STACK
    ensures w.start == v.start && v.brk <= w.brk <= v.brk + size + 15
  {
    HeapBlocks.AlignExact(size);
  }

  /** One kmalloc, if it can be served. */
  method Obtain(h: Heap.KernelHeap, ghost c: Client, size: nat, supply: nat) returns (p: nat, ghost d: Client)
    requires Matches(h, c) && size <= WORD - 8
    modifies h, h.mem, h.pb
    ensures Matches(h, d) && (p == 0 <==> Unserved(c.v, size, supply))
    ensures if p == 0 then c.live == d.live else Mallocs(c, size, p, d)
  {
    var ok := CanServe(h, size);
    if !ok {
      return 0, c;
    }
    p, d := Malloc(h, c, size, supply);
  }

  method Release(h: Heap.KernelHeap, ghost c: Client, p: nat, ghost size: nat) returns (ghost d: Client)
    requires Matches(h, c) && Named(c.live, p, size)
    modifies h, h.mem
    ensures Matches(h, d) && FreeOf(c, p, d)
  {
    ghost var b :| b in c.live && HeapRuns.Pointer(b) == p && c.live[b] == size;
    d := Free(h, c, p, b);
  }

  lemma SameLodged(w: World, d: Client)
    requires Housed(w) && HeapRuns.Consistent(d) && d.live == w.c.live
    ensures Housed(w.(c := d))
  {
  }

  /** create_kernel_task with its allocations: whatever kmalloc returns, the step is one of the runs above. `t` is
      NULL where the kernel aborts. */
  method SpawnTask(s: Scheduler.Scheduler, h: Heap.KernelHeap, stack: map<Tid, nat>, ghost c: Client, supply1: nat, supply2: nat)
    returns (t: Tid, stack2: map<Tid, nat>, ghost d: Client)
    requires s.Valid() && s.phase == Normal && Matches(h, c) && Housed(World(s.View(), c, stack))
    modifies s, h, h.mem, h.pb
    ensures t == NULL ==> s.View() == old(s.View()) && NoMemory(c, supply1, supply2)
    ensures t != NULL ==> s.Valid() && Matches(h, d) && t in stack2 && Housed(World(s.View(), d, stack2))
    ensures t != NULL ==> WorldStep(World(old(s.View()), c, stack), Spawn(t, stack2[t]), World(s.View(), d, stack2))
  {
    ghost var w := World(s.View(), c, stack);
    ghost var c1;
    t, c1 := Obtain(h, c, CONTROL_BLOCK, supply1);
    if t == 0 {
      return NULL, stack, c1;
    }
    var base;
    base, d := Obtain(h, c1, STACK, supply2);
    if base == 0 {
      assert SecondFails(c, t, c1, supply2);
      return NULL, stack, d;
    }
    assert AllocatedVia(c, t, c1, base, d);
    SpawnEnabled(w, t, base, d);
    SpawnHoused(w, t, base, d);
    StepInv(w.m, Created(t));
    s.CreateKernelTask(t);
    stack2 := stack[t := base];
  }

  lemma {:induction false} OneMoreFreed(c: Client, q: seq<Tid>, stack: map<Tid, nat>, x: Client, t: Tid, d: Client)
    requires FreesTasks(c, q, stack, x) && t in stack && FreesTask(x, t, stack[t], d)
    ensures FreesTasks(c, q + [t], stack, d)
    decreases |q|
  {
    if q == [] {
      assert q + [t] == [t];
      FreesCons(c, t, [], stack, d, d);
    } else {
      var y :| FreesTask(c, q[0], stack[q[0]], y) && FreesTasks(y, q[1..], stack, x);
      OneMoreFreed(y, q[1..], stack, x, t, d);
      FreesCons(c, q[0], q[1..] + [t], stack, y, d);
      Regroup([], q, t);
    }
  }

  lemma FreesCons(c: Client, t: Tid, q: seq<Tid>, stack: map<Tid, nat>, y: Client, d: Client)
    requires t in stack && FreesTask(c, t, stack[t], y) && FreesTasks(y, q, stack, d)
    ensures FreesTasks(c, [t] + q, stack, d)
  {
    assert ([t] + q)[1..] == q;
  }

  lemma Regroup(p: seq<Tid>, q: seq<Tid>, t: Tid)
    requires q != []
    ensures p + [q[0]] + q[1..] == p + q && [q[0]] + (q[1..] + [t]) == q + [t]
  {
  }

  /** While the tasks of `gone` have been freed, the pointers of another task are still live. */
  lemma StillNamed(w: World, gone: seq<Tid>, x: Client, t: Tid)
    requires Inv(w.m) && Housed(w) && FreesTasks(w.c, gone, w.stack, x)
    requires w.m.h.root !in gone && (forall u :: u in gone ==> u in w.m.h.alive) && t in w.m.h.alive && t !in gone && t != w.m.h.root
    ensures HeapRuns.Consistent(x) && t in w.stack && Named(x.live, t, CONTROL_BLOCK) && Named(x.live, w.stack[t], STACK)
  {
    StaysApart(w, gone, t);
    TasksKeep(w.c, gone, w.stack, x, t, CONTROL_BLOCK);
    TasksKeep(w.c, gone, w.stack, x, w.stack[t], STACK);
  }

  /** free_task, the heap's part. */
  method FreeTask(h: Heap.KernelHeap, t: Tid, base: nat, ghost x: Client) returns (ghost d: Client)
    requires Matches(h, x) && Named(x.live, t, CONTROL_BLOCK) && Named(x.live, base, STACK)
    modifies h, h.mem
    ensures Matches(h, d) && FreesTask(x, t, base, d)
  {
    if t == base { OneSize(x, t, CONTROL_BLOCK, STACK); }
    ghost var y := Release(h, x, base, STACK);
    FreeKeeps(x, base, y, t, CONTROL_BLOCK);
    d := Release(h, y, t, CONTROL_BLOCK);
  }

  /** dead_tasks_cleanup with its kfrees: each of them is made on a live block, so nothing is freed twice. */
  method BuryTasks(s: Scheduler.Scheduler, h: Heap.KernelHeap, stack: map<Tid, nat>, ghost c: Client) returns (ghost d: Client)
    requires s.Valid() && s.phase == Normal && Matches(h, c) && Housed(World(s.View(), c, stack))
    modifies s, h, h.mem
    ensures s.Valid() && Matches(h, d) && Housed(World(s.View(), d, stack))
    ensures WorldStep(World(old(s.View()), c, stack), Bury, World(s.View(), d, stack))
  {
    ghost var w := World(s.View(), c, stack);
    d := FreeDead(s, h, stack, c);
    BuryHoused(w, d);
    StepInv(w.m, Cleaned);
    s.DeadTasksCleanup();
  }

  method FreeDead(s: Scheduler.Scheduler, h: Heap.KernelHeap, stack: map<Tid, nat>, ghost c: Client) returns (ghost d: Client)
    requires s.Valid() && s.phase == Normal && Matches(h, c) && Housed(World(s.View(), c, stack))
    modifies h, h.mem
    ensures Matches(h, d) && FreesTasks(c, s.graveyard, stack, d)
  {
    ghost var w := World(s.View(), c, stack);
    var node := s.dead;
    ghost var gone, rest := [], s.graveyard;
    d := c;
    while node != NULL
      invariant Matches(h, d) && Burying(w, gone, rest, d) && IsList(s.next, node, rest)
      decreases |rest|
    {
      NextDead(w, gone, rest);
      d := FreeNext(h, w, gone, rest, d, node, stack);
      gone, rest := gone + [node], rest[1..];
      node := s.next[node];
    }
    assert gone == s.graveyard;
  }

  /** Half-way through: the tasks of `gone` have been freed, and those of `rest` have not. */
  ghost predicate Burying(w: World, gone: seq<Tid>, rest: seq<Tid>, x: Client) {
    w.m.dead == gone + rest && FreesTasks(w.c, gone, w.stack, x)
  }

  method FreeNext(h: Heap.KernelHeap, ghost w: World, ghost gone: seq<Tid>, ghost rest: seq<Tid>, ghost x: Client,
    node: Tid, stack: map<Tid, nat>) returns (ghost d: Client)
    requires Inv(w.m) && w.m.phase == Normal && Housed(w) && w.stack == stack
    requires Matches(h, x) && Burying(w, gone, rest, x) && rest != [] && node == rest[0] && node !in gone
    modifies h, h.mem
    ensures Matches(h, d) && Burying(w, gone + [node], rest[1..], d)
  {
    NextNamed(w, gone, rest, x);
    d := FreeTask(h, node, stack[node], x);
    NextFreed(w, gone, rest, x, d);
  }

  lemma NextNamed(w: World, gone: seq<Tid>, rest: seq<Tid>, x: Client)
    requires Inv(w.m) && w.m.phase == Normal && Housed(w) && Burying(w, gone, rest, x) && rest != [] && rest[0] !in gone
    ensures rest[0] in w.stack && Named(x.live, rest[0], CONTROL_BLOCK) && Named(x.live, w.stack[rest[0]], STACK)
  {
    DeadAlive(w.m);
    assert rest[0] in w.m.dead && forall u :: u in gone ==> u in w.m.dead;
    StillNamed(w, gone, x, rest[0]);
  }

  lemma NextFreed(w: World, gone: seq<Tid>, rest: seq<Tid>, x: Client, d: Client)
    requires Burying(w, gone, rest, x) && rest != [] && rest[0] in w.stack && FreesTask(x, rest[0], w.stack[rest[0]], d)
    ensures Burying(w, gone + [rest[0]], rest[1..], d)
  {
    OneMoreFreed(w.c, gone, w.stack, x, rest[0], d);
    Regroup(gone, rest, 0);
  }

  lemma NextDead(w: World, gone: seq<Tid>, rest: seq<Tid>)
    requires Placed(w.m) && w.m.dead == gone + rest && rest != []
    ensures rest[0] in w.m.dead && rest[0] !in gone && w.m.dead == gone + [rest[0]] + rest[1..]
  {
    InPlaces(w.m, rest[0]);
    CountAppend(gone, rest, rest[0]);
    assert rest[0] in w.m.dead;
  }
}
