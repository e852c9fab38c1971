/** The ids by which get_task_state finds a task. They are taken from a counter that is cut to 32 bits. */
module TaskIds {
  import opened ByteStore
  import opened TaskLists
  import opened SchedulerModel
  import opened SchedulerInvariants
  import opened SchedulerRuns

  /** The ids tell the tasks there apart. */
  ghost predicate DistinctIds(m: Machine) {
    forall s, t :: s in m.h.alive && t in m.h.alive && At(m.ids.of, s) == At(m.ids.of, t) ==> s == t
  }

  ghost predicate Sound(m: Machine) {
    Inv(m) && Numbered(m) && (|m.h.created| <= WORD ==> DistinctIds(m))
  }

  /** `r` is the state of a task with the id `pid`. */
  ghost predicate Answers(m: Machine, pid: int, r: int) {
    exists t :: t in m.h.alive && At(m.ids.of, t) == pid && r == At(m.state, t)
  }

  /** The counter counts creations, no id is ahead of it, and the boot task has id 0. */
  ghost predicate Numbered(m: Machine) {
    && m.ids.pid + 1 == |m.h.created| && (forall t :: t in m.h.alive ==> 0 <= At(m.ids.of, t) <= m.ids.pid)
    && m.h.root in m.h.alive && At(m.ids.of, m.h.root) == 0
  }

  function Id(pid: nat): nat {
    pid % WORD
  }

  lemma IdBelow(pid: nat)
    ensures pid < WORD ==> Id(pid) == pid
    ensures Id(WORD) == 0 && Id(pid) <= pid
  {
  }

  lemma CreateNumbered(m: Machine, t: Tid)
    requires Placed(m) && Numbered(m) && Enabled(m, Created(t))
    ensures Numbered(Create(m, t)) && At(Create(m, t).ids.of, t) == Id(m.ids.pid + 1)
  {
    InPlaces(m, t);
    IdBelow(m.ids.pid + 1);
  }

  lemma CreateDistinct(m: Machine, t: Tid)
    requires Placed(m) && Numbered(m) && Enabled(m, Created(t)) && DistinctIds(m) && m.ids.pid + 1 < WORD
    ensures DistinctIds(Create(m, t))
  {
    CreateNumbered(m, t);
    IdBelow(m.ids.pid + 1);
    InPlaces(m, t);
  }

  lemma CleanupIds(m: Machine)
    requires Placed(m) && Numbered(m) && m.phase == Normal
    ensures Numbered(Cleanup(m)) && (DistinctIds(m) ==> DistinctIds(Cleanup(m)))
  {
    var w := Cleanup(m);
    forall t ensures t in w.h.alive <==> t in m.h.alive && t !in m.dead {
      CleanupPlace(m, t);
      assert Count(m.h.alive, t) <= 1;
    }
    assert m.h.root !in m.dead by { InPlaces(m, m.h.root); }
  }

  ghost predicate SameIds(m: Machine, w: Machine) {
    w.ids == m.ids && w.h.alive == m.h.alive && w.h.created == m.h.created && w.h.root == m.h.root
  }

  lemma OtherIds(m: Machine, op: Op)
    requires Enabled(m, op) && !op.Created? && !op.Cleaned?
    ensures SameIds(m, Next(m, op))
  {
  }

  lemma StepIds(m: Machine, op: Op)
    requires Placed(m) && Numbered(m) && Enabled(m, op)
    ensures Numbered(Next(m, op)) && |m.h.created| <= |Next(m, op).h.created|
    ensures DistinctIds(m) && |Next(m, op).h.created| <= WORD ==> DistinctIds(Next(m, op))
  {
    match op
    case Created(t) =>
      CreateNumbered(m, t);
      if DistinctIds(m) && m.ids.pid + 1 < WORD { CreateDistinct(m, t); }
    case Cleaned => CleanupIds(m);
    case _ => OtherIds(m, op);
  }

  lemma StepSound(m: Machine, op: Op)
    requires Sound(m) && Enabled(m, op)
    ensures Sound(Next(m, op)) && |m.h.created| <= |Next(m, op).h.created|
  {
    StepInv(m, op);
    StepIds(m, op);
  }

  lemma InitialSound(boot: Tid, now: int)
    requires boot != NULL
    ensures Sound(Initial(boot, now))
  {
    InitialInv(boot, now);
  }

  lemma {:induction false} RunSound(ms: seq<Machine>, ops: seq<Op>, i: nat)
    requires Run(ms, ops) && Sound(ms[0]) && i < |ms|
    ensures Sound(ms[i])
  {
    if i > 0 {
      RunSound(ms, ops, i - 1);
      assert IsStep(ms, ops, i - 1);
      StepSound(ms[i - 1], ops[i - 1]);
    }
  }

  lemma {:induction false} CreatedGrows(ms: seq<Machine>, ops: seq<Op>, j: nat, i: nat)
    requires Run(ms, ops) && Sound(ms[0]) && j <= i < |ms|
    ensures |ms[j].h.created| <= |ms[i].h.created|
  {
    if j < i {
      CreatedGrows(ms, ops, j, i - 1);
      RunSound(ms, ops, i - 1);
      assert IsStep(ms, ops, i - 1);
      StepSound(ms[i - 1], ops[i - 1]);
    }
  }

  /** The creation that makes the counter pass 32 bits gives the new task the id of the boot task. */
  lemma WrappedId(m: Machine, op: Op)
    requires Placed(m) && Numbered(m) && Enabled(m, op) && |m.h.created| <= WORD < |Next(m, op).h.created|
    ensures !DistinctIds(Next(m, op))
  {
    if op.Created? {
      CreateNumbered(m, op.t);
      IdBelow(m.ids.pid + 1);
      InPlaces(m, op.t);
      assert op.t in Next(m, op).h.alive && m.h.root in Next(m, op).h.alive && op.t != m.h.root;
    } else if !op.Cleaned? {
      OtherIds(m, op);
    }
  }

  lemma {:induction false} SomeClash(ms: seq<Machine>, ops: seq<Op>, i: nat)
    requires Run(ms, ops) && Sound(ms[0]) && |ms[0].h.created| <= WORD && i < |ms| && |ms[i].h.created| > WORD
    ensures exists j :: 0 <= j <= i && !DistinctIds(ms[j])
  {
    RunSound(ms, ops, i - 1);
    assert IsStep(ms, ops, i - 1);
    if |ms[i - 1].h.created| > WORD {
      SomeClash(ms, ops, i - 1);
    } else {
      WrappedId(ms[i - 1], ops[i - 1]);
    }
  }

  /** In a run from boot the ids have told the tasks apart all along exactly if no more than 2^32 tasks, the boot task
      included, have been created. */
  lemma IdsDistinctIff(ms: seq<Machine>, ops: seq<Op>, boot: Tid, now: int, i: nat)
    requires Run(ms, ops) && boot != NULL && ms[0] == Initial(boot, now) && i < |ms|
    ensures (forall j :: 0 <= j <= i ==> DistinctIds(ms[j])) <==> |ms[i].h.created| <= WORD
  {
    InitialSound(boot, now);
    if |ms[i].h.created| <= WORD {
      forall j | 0 <= j <= i ensures DistinctIds(ms[j]) {
        CreatedGrows(ms, ops, j, i);
        RunSound(ms, ops, j);
      }
    } else {
      SomeClash(ms, ops, i);
    }
  }
}
