/** Building the initial directory and entering paged mode (pmm_directory_init in paging.c). */
module PagingBoot {
  import opened ByteStore
  import opened FrameBitmap
  import opened PageTables
  import opened AddressSpace
  import FrameAllocator
  import PagingRuns

  method ZeroFrame(mem: array<Page>, frame: Frame)
    requires mem.Length == CELLS
    modifies mem
    ensures mem[..] == ZeroPage(old(mem[..]), frame, SLOTS)
  {
    ZeroNothing(mem[..], frame);
    for i := 0 to SLOTS
      invariant mem[..] == ZeroPage(old(mem[..]), frame, i)
    {
      PutZero(old(mem[..]), frame, i);
      mem[Cell(frame, i)] := ZERO;
    }
  }

  /** `m` with the entries of `table` below `n` mapping frames 0, 1, 2, … one to one. */
  ghost predicate Filled(m: seq<Page>, m2: seq<Page>, table: Frame, n: nat)
    requires |m| == CELLS && |m2| == CELLS && n <= SLOTS
  {
    forall g: Frame, s :: 0 <= s < SLOTS ==>
      At(m2, g, s) == if g == table && s < n then Page(true, true, false, 0, s) else At(m, g, s)
  }

  method FillFirstTable(mem: array<Page>, table: Frame)
    requires mem.Length == CELLS && forall s :: 0 <= s < SLOTS ==> At(mem[..], table, s) == ZERO
    modifies mem
    ensures Filled(old(mem[..]), mem[..], table, SLOTS)
  {
    for i := 0 to SLOTS
      invariant Filled(old(mem[..]), mem[..], table, i)
    {
      ghost var before := mem[..];
      assert At(before, table, i) == ZERO;
      mem[Cell(table, i)] := mem[Cell(table, i)].(frame := i, present := true, rw := true, user := false);
      FilledStep(old(mem[..]), before, mem[..], table, i);
    }
  }

  lemma FilledStep(m: seq<Page>, m1: seq<Page>, m2: seq<Page>, table: Frame, i: nat)
    requires |m| == CELLS && |m1| == CELLS && i < SLOTS && Filled(m, m1, table, i)
    requires m2 == Put(m1, table, i, Page(true, true, false, 0, i))
    ensures Filled(m, m2, table, i + 1)
  {
    forall g: Frame, s: nat | s < SLOTS
      ensures At(m2, g, s) == if g == table && s < i + 1 then Page(true, true, false, 0, s) else At(m, g, s)
    {
      PutAt(m1, table, i, Page(true, true, false, 0, i), g, s);
    }
  }

  /** Slot `d` of the directory at `root`, written directly. */
  method SetSlot(mem: array<Page>, root: Frame, d: nat, frame: Frame)
    requires mem.Length == CELLS && d < SLOTS
    modifies mem
    ensures mem[..] == Put(old(mem[..]), root, d, At(old(mem[..]), root, d).(frame := frame, present := true, rw := true, user := false))
  {
    mem[Cell(root, d)] := mem[Cell(root, d)].(frame := frame, present := true, rw := true, user := false);
  }

  /** Slots 0, 768 and 1023 of an empty directory. */
  method SetSlots(mem: array<Page>, root: Frame, table: Frame)
    requires mem.Length == CELLS && root != table
    requires forall d :: 0 <= d < SLOTS ==> Pde(mem[..], root, d) == ZERO
    modifies mem
    ensures FirstDirectory(mem[..], root, table)
    ensures forall s :: 0 <= s < SLOTS ==> At(mem[..], table, s) == At(old(mem[..]), table, s)
  {
    ghost var m := mem[..];
    SetSlot(mem, root, 0, table);
    ghost var m1 := mem[..];
    assert Pde(m, root, 0) == ZERO;
    forall s: nat | s < SLOTS ensures Pde(m1, root, s) == if s == 0 then FirstPde(root, table, 0) else ZERO
      ensures At(m1, table, s) == At(m, table, s)
    {
      assert Pde(m, root, s) == ZERO;
      PutAt(m, root, 0, FirstPde(root, table, 0), root, s);
      PutAt(m, root, 0, FirstPde(root, table, 0), table, s);
    }
    SetSlot(mem, root, KERNEL_SLOT, table);
    ghost var m2 := mem[..];
    assert Pde(m1, root, KERNEL_SLOT) == ZERO;
    forall s: nat | s < SLOTS ensures Pde(m2, root, s) == if Low(s) then FirstPde(root, table, s) else ZERO
      ensures At(m2, table, s) == At(m, table, s)
    {
      PutAt(m1, root, KERNEL_SLOT, FirstPde(root, table, KERNEL_SLOT), root, s);
      PutAt(m1, root, KERNEL_SLOT, FirstPde(root, table, KERNEL_SLOT), table, s);
    }
    SetSlot(mem, root, RECURSIVE, root);
    assert Pde(m2, root, RECURSIVE) == ZERO;
    forall s: nat | s < SLOTS ensures Pde(mem[..], root, s) == FirstPde(root, table, s)
      ensures At(mem[..], table, s) == At(m, table, s)
    {
      PutAt(m2, root, RECURSIVE, FirstPde(root, table, RECURSIVE), root, s);
      PutAt(m2, root, RECURSIVE, FirstPde(root, table, RECURSIVE), table, s);
    }
  }

  method BuildTables(mem: array<Page>, root: Frame, table: Frame)
    requires mem.Length == CELLS && root != table
    modifies mem
    ensures FirstDirectory(mem[..], root, table) && FirstTable(mem[..], table, SLOTS)
  {
    ZeroFrame(mem, root);
    ghost var m1 := mem[..];
    ZeroFrame(mem, table);
    ghost var m2 := mem[..];
    forall s: nat | s < SLOTS ensures At(m2, table, s) == ZERO && At(m2, root, s) == ZERO {
      ZeroAt(old(mem[..]), root, SLOTS, root, s);
      ZeroAt(m1, table, SLOTS, root, s);
      ZeroAt(m1, table, SLOTS, table, s);
    }
    FillFirstTable(mem, table);
    ghost var m3 := mem[..];
    forall d: nat | d < SLOTS ensures Pde(m3, root, d) == ZERO && At(m3, table, d) == Page(true, true, false, 0, d) {
      assert At(m2, root, d) == ZERO;
    }
    SetSlots(mem, root, table);
  }

  /** Two frames are taken for the directory and the first table; without them the kernel aborts. */
  method DirectoryInit(bitmap: array<bv32>, mem: array<Page>) returns (root: Option<Frame>, ghost table: Frame)
    requires bitmap.Length == WORDS && mem.Length == CELLS && forall f :: 0 <= f < 256 ==> InUse(bitmap[..], f)
    modifies bitmap, mem
    ensures root.None? <==> |FreeFrames(old(bitmap[..]))| < 2
    ensures root.Some? ==>
      && root.value != table && FirstDirectory(mem[..], root.value, table) && FirstTable(mem[..], table, SLOTS)
      && {root.value as int, table as int} <= FreeFrames(old(bitmap[..]))
      && FreeFrames(bitmap[..]) == FreeFrames(old(bitmap[..])) - {root.value as int, table as int}
  {
    ghost var free := FreeFrames(bitmap[..]);
    table := 0;
    var directory := AllocFrame(bitmap);
    if directory == 0 {
      assert free == {};
      return None, table;
    }
    ghost var free1 := FreeFrames(bitmap[..]);
    assert free1 == free - {directory / 4096};
    var first := AllocFrame(bitmap);
    if first == 0 {
      assert free1 == {};
      FrameAllocator.SubsetCard(free, {directory / 4096});
      return None, table;
    }
    table := first / 4096;
    assert FreeFrames(bitmap[..]) == free1 - {table as int};
    FrameAllocator.SubsetCard({directory / 4096, first / 4096}, free);
    BuildTables(mem, directory / 4096, first / 4096);
    root := Some(directory / 4096);
  }

  /** Paged mode starts with the tables just built, an empty TLB, and a frame allocator over this bitmap that will
      never hand out a table. The objects are new, so calls on them can follow. */
  method StartPaging(bitmap: array<bv32>, mem: array<Page>) returns (mmu: Mmu?, ghost table: Frame, ghost initial: set<nat>)
    requires bitmap.Length == WORDS && mem.Length == CELLS && forall f :: 0 <= f < 256 ==> InUse(bitmap[..], f)
    modifies bitmap, mem
    ensures mmu == null <==> |FreeFrames(old(bitmap[..]))| < 2
    ensures mmu != null ==> mmu.mem == mem && mmu.pmm.bitmap == bitmap
    ensures mmu != null ==> fresh(mmu) && fresh(mmu.pmm) && fresh(mmu.pmm.preFrames)
    ensures mmu != null ==> mmu.View() == Space(mem[..], map[]) && BootTables(mem[..], mmu.root, table)
    ensures mmu != null ==> mmu.pmm.Valid() && mmu.pmm.View() == FrameAllocator.Pool(initial, [], {}, {})
    ensures mmu != null ==> {mmu.root as int, table as int} <= FreeFrames(old(bitmap[..]))
    ensures mmu != null ==> initial == FreeFrames(old(bitmap[..])) - {mmu.root as int, table as int}
  {
    var root;
    root, table := DirectoryInit(bitmap, mem);
    initial := FreeFrames(bitmap[..]);
    if root.None? { return null, table, initial; }
    forall f | 0 <= f < 256 ensures InUse(bitmap[..], f) { assert InUse(old(bitmap[..]), f); }
    var pmm := new FrameAllocator.FrameSource(bitmap);
    mmu := new Mmu(mem, root.value, pmm);
  }

  ghost predicate BootTables(m: seq<Page>, root: Frame, table: Frame) {
    |m| == CELLS && root != table && FirstDirectory(m, root, table) && FirstTable(m, table, SLOTS)
  }

  /** What boot leaves behind is where the runs of the address space start: the flat map is the low 4 MB one to one,
      every cached translation is current, and no table is the frame allocator's to give. */
  lemma BootSystem(m: seq<Page>, root: Frame, table: Frame, initial: set<nat>)
    requires BootTables(m, root, table) && root !in initial && table !in initial
    requires forall f :: f in initial ==> 256 <= f < FRAMES
    ensures var x := PagingRuns.System(Space(m, map[]), FrameAllocator.Pool(initial, [], {}, {}));
            PagingRuns.SystemOk(x, root, initial) && PagingRuns.Exact(x.s, root)
    ensures PagingRuns.Represents(PagingRuns.BootPages(), m, root)
  {
    PagingRuns.BootRepresents(m, root, table);
    forall d | 0 <= d < RECURSIVE && Pde(m, root, d).present
      ensures Kept(FrameAllocator.Pool(initial, [], {}, {}), initial, Pde(m, root, d).frame)
    {
      assert Pde(m, root, d) == FirstPde(root, table, d);
    }
  }

  /** So every run that starts at boot, without map and unmap under slots 0 and 768, has exact translations. */
  lemma RunsFromBoot(m: seq<Page>, root: Frame, table: Frame, initial: set<nat>, xs: seq<PagingRuns.System>,
    es: seq<PagingRuns.Event>, rs: seq<int>, i: nat)
    requires BootTables(m, root, table) && root !in initial && table !in initial
    requires forall f :: f in initial ==> 256 <= f < FRAMES
    requires PagingRuns.Run(xs, root, es, rs) && i < |xs|
    requires xs[0] == PagingRuns.System(Space(m, map[]), FrameAllocator.Pool(initial, [], {}, {}))
    ensures |xs[i].s.mem| == CELLS && PagingRuns.SystemOk(xs[i], root, initial)
    ensures PagingRuns.Represents(PagingRuns.FlatRun(PagingRuns.BootPages(), es, rs, i), xs[i].s.mem, root)
    ensures PagingRuns.AvoidsLow(es) ==> PagingRuns.Exact(xs[i].s, root)
  {
    BootSystem(m, root, table, initial);
    PagingRuns.RunRefines(xs, root, es, rs, initial, PagingRuns.BootPages(), i);
    if PagingRuns.AvoidsLow(es) { PagingRuns.RunExact(xs, root, es, rs, initial, i); }
  }
}
