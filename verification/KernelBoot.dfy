/** From the bitmap and the memory that boot finds to a growing heap: pmm_directory_init, then sbrk. */
module KernelBoot {
  import opened ByteStore
  import opened FrameBitmap
  import opened PageTables
  import opened AddressSpace
  import opened ProgramBreak
  import opened PagingBoot
  import opened KernelBreak
  import FrameAllocator

  ghost function Size(s: set<nat>): nat {
    FrameAllocator.Size(s)
  }

  /** The break at which heap_init starts, 4 MB above the kernel's base. */
  const FIRST_BREAK := 0xC040_0000

  /** Of the kernel's half, boot maps exactly the first 4 MB. */
  lemma BootMapped(m: seq<Page>, root: Frame, table: Frame)
    requires BootTables(m, root, table)
    ensures MappedPages(m, root) == Pages(KERNEL_PAGE, KERNEL_PAGE + SLOTS)
  {
    forall vp | KERNEL_PAGE <= vp < WINDOW_PAGE ensures Walk(m, root, vp).Some? <==> vp < KERNEL_PAGE + SLOTS {
      NoTwins(vp, vp);
      InitialWalk(m, root, table, vp);
    }
  }

  /** The heap's pages are mapped, those above the first break on frames that are the kernel's own. */
  ghost predicate HeapReady(heap: HeapBreak, initial: set<nat>)
    reads heap, heap.mmu, heap.mmu.mem, heap.mmu.pmm, heap.mmu.pmm.bitmap, heap.mmu.pmm.preFrames
  {
    && Ready(heap.mmu, initial) && Wf(heap.View()) && Covered(heap.View())
    && FIRST_BREAK <= heap.brk && heap.brk + 4095 < 0xFFC0_0000
    && OwnPages(heap.mmu.mem[..], heap.mmu.root, heap.mmu.pmm.held, FIRST_BREAK / 4096, (heap.brk + 4095) / 4096)
  }

  lemma BootReady(mmu: Mmu, table: Frame, initial: set<nat>, free: set<nat>)
    requires mmu.mem.Length == CELLS && mmu.pmm.Valid() && BootTables(mmu.mem[..], mmu.root, table)
    requires mmu.View() == Space(mmu.mem[..], map[]) && mmu.pmm.View() == FrameAllocator.Pool(initial, [], {}, {})
    requires initial == free - {mmu.root as int, table as int} && forall f :: f in free ==> 256 <= f < FRAMES
    ensures Ready(mmu, initial)
  {
    BootSystem(mmu.mem[..], mmu.root, table, initial);
  }

  lemma FirstReady(heap: HeapBreak, initial: set<nat>)
    requires Ready(heap.mmu, initial) && heap.start % 4096 == 0 && KERNEL_BASE <= heap.start <= FIRST_BREAK
    requires heap.View() == Break(heap.start, FIRST_BREAK, Pages(KERNEL_PAGE, KERNEL_PAGE + SLOTS))
    ensures HeapReady(heap, initial)
  {
    assert heap.View().brk == heap.brk;
  }

  lemma TwoLess(s: set<nat>, x: nat, y: nat)
    requires x in s && y in s && x != y
    ensures Size(s - {x, y}) + 2 == Size(s)
  {
    FrameAllocator.SizeIs(s);
    FrameAllocator.SizeIs(s - {x, y});
    assert s - {x} == (s - {x, y}) + {y} && s == (s - {x}) + {x};
  }

  lemma FirstPurse(heap: HeapBreak, initial: set<nat>, table: Frame)
    requires heap.mmu.mem.Length == CELLS && heap.mmu.pmm.Valid() && BootTables(heap.mmu.mem[..], heap.mmu.root, table)
    requires heap.mmu.pmm.View() == FrameAllocator.Pool(initial, [], {}, {})
    ensures PurseOf(heap.mmu) == Purse({0, KERNEL_SLOT}, FrameAllocator.Batches(Size(initial)))
  {
    BootTableSlots(heap.mmu.mem[..], heap.mmu.root, table);
  }

  /** After boot the break stands at the end of the pages mapped. */
  method FirstBreak(bitmap: array<bv32>, mem: array<Page>, start: nat) returns (heap: HeapBreak?, ghost initial: set<nat>)
    requires bitmap.Length == WORDS && mem.Length == CELLS && forall f :: 0 <= f < 256 ==> InUse(bitmap[..], f)
    requires start % 4096 == 0 && KERNEL_BASE <= start <= FIRST_BREAK
    modifies bitmap, mem
    ensures heap == null <==> |FreeFrames(old(bitmap[..]))| < 2
    ensures heap != null ==> fresh(heap) && fresh(heap.mmu) && fresh(heap.mmu.pmm) && fresh(heap.mmu.pmm.preFrames)
    ensures heap != null ==> heap.mmu.mem == mem && heap.mmu.pmm.bitmap == bitmap && HeapReady(heap, initial)
    ensures heap != null ==> heap.View() == Break(start, FIRST_BREAK, Pages(KERNEL_PAGE, KERNEL_PAGE + SLOTS))
    ensures heap != null ==> initial < FreeFrames(old(bitmap[..])) && Size(initial) + 2 == Size(FreeFrames(old(bitmap[..])))
    ensures heap != null ==> PurseOf(heap.mmu) == Purse({0, KERNEL_SLOT}, FrameAllocator.Batches(Size(initial)))
  {
    ghost var table;
    var mmu: Mmu?;
    mmu, table, initial := StartPaging(bitmap, mem);
    if mmu == null {
      return null, initial;
    }
    BootReady(mmu, table, initial, FreeFrames(old(bitmap[..])));
    BootMapped(mem[..], mmu.root, table);
    heap := new HeapBreak(mmu, start, FIRST_BREAK);
    FirstReady(heap, initial);
    assert mmu.root as int in FreeFrames(old(bitmap[..]));
    TwoLess(FreeFrames(old(bitmap[..])), mmu.root, table);
    FirstPurse(heap, initial, table);
  }

  /** One increment, if it keeps the break below the window: it succeeds exactly if there are frames enough. */
  method GrowOnce(heap: HeapBreak, increment: nat, ghost initial: set<nat>, ghost cur: nat, ghost mid: nat) returns (r: int)
    requires HeapReady(heap, initial) && cur == Ceil(heap.brk) && mid == Ceil(heap.brk + increment)
    modifies heap, heap.mmu, heap.mmu.mem, heap.mmu.pmm, heap.mmu.pmm.bitmap, heap.mmu.pmm.preFrames
    ensures HeapReady(heap, initial)
    ensures r != -1 <==> increment == 0 || (old(heap.brk) + increment + 4095 < 0xFFC0_0000 && Enough(old(PurseOf(heap.mmu)), cur, mid))
    ensures r != -1 ==> r == old(heap.brk) && heap.brk == old(heap.brk) + increment
    ensures r != -1 ==> Paid(old(PurseOf(heap.mmu)), PurseOf(heap.mmu), cur, mid) && Ceil(heap.brk) == mid
    ensures r == -1 ==> heap.brk == old(heap.brk)
  {
    if increment == 0 {
      PaidSame(PurseOf(heap.mmu), cur, mid);
      return heap.brk;
    }
    if heap.brk + increment + 4095 >= 0xFFC0_0000 {
      return -1;
    }
    ghost var b := heap.View();
    ghost var supply, vp;
    r, supply, vp := heap.IncrementBrk(increment, initial, FIRST_BREAK / 4096, cur, mid);
    Grown(b, increment, supply, heap.View(), r != -1);
  }

  lemma PaidSame(p: Purse, lo: nat, hi: nat)
    requires lo == hi
    ensures Paid(p, p, lo, hi)
  {
    PaidNone(p, lo);
  }

  lemma Grown(b: Break, increment: nat, supply: nat, c: Break, ok: bool)
    requires Wf(b) && Covered(b) && b.brk + increment + 4095 < WORD && (c, ok) == Grow(b, increment, supply)
    ensures Wf(c) && Covered(c) && c.start == b.start && c.brk == if ok then b.brk + increment else b.brk
  {
    GrowCovers(b, increment, supply);
  }

  // ---------------------------------------------------------------- how far the heap can grow after boot

  function Sum(xs: seq<nat>): nat {
    if xs == [] then 0 else Sum(xs[..|xs| - 1]) + xs[|xs| - 1]
  }

  lemma {:induction false} SumGrows(xs: seq<nat>, i: nat)
    requires i <= |xs|
    ensures Sum(xs[..i]) <= Sum(xs)
    decreases |xs|
  {
    if i == |xs| {
      assert xs[..i] == xs;
    } else {
      SumGrows(xs[..|xs| - 1], i);
      assert xs[..|xs| - 1][..i] == xs[..i];
    }
  }

  /** The frames it takes to map `n` pages from the first break on: one each, and a table for every 1024. */
  function BootCost(n: nat): nat {
    n + (n + 1023) / 1024
  }

  /** Boot leaves tables in slots 0 and 768. */
  lemma BootTableSlots(m: seq<Page>, root: Frame, table: Frame)
    requires BootTables(m, root, table)
    ensures Tables(m, root) == {0, KERNEL_SLOT}
  {
    forall d: nat | d < RECURSIVE ensures Pde(m, root, d).present <==> d == 0 || d == KERNEL_SLOT {
      assert Pde(m, root, d) == FirstPde(root, table, d);
    }
  }

  lemma CostAtBoot(hi: nat)
    requires FIRST_BREAK / 4096 <= hi
    ensures Cost({0, KERNEL_SLOT}, FIRST_BREAK / 4096, hi) == BootCost(hi - FIRST_BREAK / 4096)
  {
    var lo := FIRST_BREAK / 4096;
    assert lo == 769 * SLOTS;
    var absent := Slots(lo, hi) - {0, KERNEL_SLOT};
    assert absent == Slots(lo, hi) by { NotLow(lo, hi); }
    FrameAllocator.SizeIs(absent);
    SlotCount(lo, hi);
  }

  lemma NotLow(lo: nat, hi: nat)
    requires lo == 769 * SLOTS
    ensures 0 !in Slots(lo, hi) && KERNEL_SLOT !in Slots(lo, hi)
  {
  }

  lemma SlotCount(lo: nat, hi: nat)
    requires lo == 769 * SLOTS && lo <= hi
    ensures |Slots(lo, hi)| == (hi - lo + 1023) / 1024
  {
    if lo < hi {
      PagesCount(769, (hi - 1) / SLOTS + 1);
      TablesFor(hi - lo);
    }
  }

  lemma TablesFor(n: nat)
    requires n > 0
    ensures (769 * SLOTS + n - 1) / SLOTS + 1 - 769 == (n + 1023) / 1024
  {
  }

  lemma EnoughLess(p: Purse, lo: nat, mid: nat, hi: nat)
    requires lo <= mid <= hi && Enough(p, lo, hi)
    ensures Enough(p, lo, mid)
  {
    CostSplit(p.tables, lo, mid, hi);
  }

  lemma CeilGrows(x: nat, y: nat)
    requires x <= y
    ensures Ceil(x) <= Ceil(y)
  {
  }

  /** The growth to `goal` is possible from here. */
  ghost predicate OnTheWay(heap: HeapBreak, goal: nat)
    reads heap, heap.mmu, heap.mmu.mem, heap.mmu.pmm, heap.mmu.pmm.bitmap, heap.mmu.pmm.preFrames
  {
    && heap.mmu.mem.Length == CELLS && heap.mmu.pmm.Valid()
    && heap.brk <= goal && goal + 4095 < 0xFFC0_0000 && Enough(PurseOf(heap.mmu), Ceil(heap.brk), Ceil(goal))
  }

  /** On the way to `goal` no increment fails. */
  method GrowOn(heap: HeapBreak, increment: nat, ghost goal: nat, ghost initial: set<nat>, ghost ahead: bool) returns (r: int)
    requires HeapReady(heap, initial) && (ahead ==> OnTheWay(heap, goal) && heap.brk + increment <= goal)
    modifies heap, heap.mmu, heap.mmu.mem, heap.mmu.pmm, heap.mmu.pmm.bitmap, heap.mmu.pmm.preFrames
    ensures HeapReady(heap, initial)
    ensures ahead ==> r == old(heap.brk) && heap.brk == old(heap.brk) + increment && OnTheWay(heap, goal)
  {
    ghost var p, cur, mid := PurseOf(heap.mmu), Ceil(heap.brk), Ceil(heap.brk + increment);
    if ahead { StepFits(p, heap.brk, increment, goal); }
    r := GrowOnce(heap, increment, initial, cur, mid);
    if ahead { StillEnough(p, PurseOf(heap.mmu), cur, mid, Ceil(goal)); }
  }

  lemma StepFits(p: Purse, brk: nat, increment: nat, goal: nat)
    requires brk + increment <= goal && goal + 4095 < 0xFFC0_0000 && Enough(p, Ceil(brk), Ceil(goal))
    ensures Enough(p, Ceil(brk), Ceil(brk + increment)) && Ceil(brk) <= Ceil(brk + increment) <= Ceil(goal)
  {
    CeilGrows(brk, brk + increment);
    CeilGrows(brk + increment, goal);
    EnoughLess(p, Ceil(brk), Ceil(brk + increment), Ceil(goal));
  }

  lemma StillEnough(p: Purse, q: Purse, cur: nat, mid: nat, hi: nat)
    requires cur <= mid <= hi && Enough(p, cur, hi) && Paid(p, q, cur, mid)
    ensures Enough(q, mid, hi)
  {
    EnoughSplit(p, q, cur, mid, hi);
  }

  /** Whatever increments are asked for after boot, and however soon memory runs out: all pages of the heap stay
      mapped, those above the first break on distinct held frames, none of them a page table. And if the frames left
      by boot, in batches of twenty, are as many as the pages asked for and the tables these need, no increment fails. */
  method GrowFromBoot(bitmap: array<bv32>, mem: array<Page>, start: nat, increments: seq<nat>)
    returns (heap: HeapBreak?, ghost initial: set<nat>)
    requires bitmap.Length == WORDS && mem.Length == CELLS && forall f :: 0 <= f < 256 ==> InUse(bitmap[..], f)
    requires start % 4096 == 0 && KERNEL_BASE <= start <= FIRST_BREAK
    modifies bitmap, mem
    ensures heap == null <==> |FreeFrames(old(bitmap[..]))| < 2
    ensures heap != null ==> HeapReady(heap, initial) && heap.start == start
    ensures heap != null && Affordable(Size(FreeFrames(old(bitmap[..]))), FIRST_BREAK + Sum(increments)) ==>
      heap.brk == FIRST_BREAK + Sum(increments)
  {
    heap, initial := FirstBreak(bitmap, mem, start);
    if heap == null {
      return;
    }
    ghost var goal := FIRST_BREAK + Sum(increments);
    ghost var affordable := Affordable(Size(FreeFrames(old(bitmap[..]))), goal);
    if affordable { StartOnTheWay(heap, initial, goal); }
    GrowAll(heap, increments, initial, affordable);
  }

  method GrowAll(heap: HeapBreak, increments: seq<nat>, ghost initial: set<nat>, ghost ahead: bool)
    requires HeapReady(heap, initial)
    requires ahead ==> heap.brk == FIRST_BREAK && OnTheWay(heap, FIRST_BREAK + Sum(increments))
    modifies heap, heap.mmu, heap.mmu.mem, heap.mmu.pmm, heap.mmu.pmm.bitmap, heap.mmu.pmm.preFrames
    ensures HeapReady(heap, initial) && (ahead ==> heap.brk == FIRST_BREAK + Sum(increments))
  {
    ghost var goal := FIRST_BREAK + Sum(increments);
    for i := 0 to |increments|
      invariant HeapReady(heap, initial)
      invariant ahead ==> OnTheWay(heap, goal) && heap.brk == FIRST_BREAK + Sum(increments[..i])
    {
      SumNext(increments, i);
      var _ := GrowOn(heap, increments[i], goal, initial, ahead);
    }
    assert increments[..|increments|] == increments;
  }

  lemma SumNext(xs: seq<nat>, i: nat)
    requires i < |xs|
    ensures Sum(xs[..i + 1]) == Sum(xs[..i]) + xs[i] <= Sum(xs)
  {
    assert xs[..i + 1][..i] == xs[..i];
    SumGrows(xs, i + 1);
  }

  /** With `frames` frames free at first, of which boot takes two, the break can be moved to `goal`. */
  predicate Affordable(frames: nat, goal: nat) {
    && FIRST_BREAK <= goal && goal + 4095 < 0xFFC0_0000
    && FIRST_BREAK / 4096 <= Ceil(goal) && frames >= 2
    && BootCost(Ceil(goal) - FIRST_BREAK / 4096) <= (frames - 2) / FrameAllocator.BATCH * FrameAllocator.BATCH
  }

  lemma StartOnTheWay(heap: HeapBreak, initial: set<nat>, goal: nat)
    requires heap.mmu.mem.Length == CELLS && heap.mmu.pmm.Valid() && heap.brk == FIRST_BREAK
    requires PurseOf(heap.mmu) == Purse({0, KERNEL_SLOT}, FrameAllocator.Batches(Size(initial)))
    requires Affordable(Size(initial) + 2, goal)
    ensures OnTheWay(heap, goal)
  {
    CostAtBoot(Ceil(goal));
    FrameAllocator.BatchesIs(Size(initial));
  }
}
