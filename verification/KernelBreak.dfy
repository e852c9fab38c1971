/** Growth of the program break over the real frame allocator and page tables (increment_brk in brk.c). */
module KernelBreak {
  import opened ByteStore
  import opened FrameBitmap
  import opened PageTables
  import opened AddressSpace
  import opened ProgramBreak
  import FrameAllocator
  import PagingRuns

  /** The pages of the kernel's half of the address space, up to the recursive window. */
  const KERNEL_PAGE := 0xC_0000
  const WINDOW_PAGE := 0xF_FC00

  ghost function MappedPages(m: seq<Page>, root: Frame): (r: set<nat>)
    requires |m| == CELLS
  {
    set vp | KERNEL_PAGE <= vp < WINDOW_PAGE && Walk(m, root, vp).Some?
  }

  /** The page is the kernel's to write, and its frame is held from the frame allocator and is no page table. */
  ghost predicate OwnPage(m: seq<Page>, root: Frame, held: set<nat>, vp: nat)
    requires |m| == CELLS && vp < ADDRESS_SPACE
  {
    var t := Walk(m, root, vp);
    t.Some? && t.value.rw && !t.value.user && t.value.frame in held && NoTable(m, root, t.value.frame)
  }

  /** So are the pages from `lo` up to `hi`, each with a frame of its own. */
  ghost predicate OwnPages(m: seq<Page>, root: Frame, held: set<nat>, lo: nat, hi: nat)
    requires |m| == CELLS && hi <= ADDRESS_SPACE
  {
    (forall vp :: lo <= vp < hi ==> OwnPage(m, root, held, vp))
    && forall vp, wp :: lo <= vp < wp < hi ==> Walk(m, root, vp) != Walk(m, root, wp)
  }

  ghost predicate InUseAs(m: seq<Page>, root: Frame, f: Frame, lo: nat, hi: nat)
    requires |m| == CELLS && hi <= ADDRESS_SPACE
  {
    exists vp :: lo <= vp < hi && Backs(m, root, f, vp)
  }

  ghost predicate Backs(m: seq<Page>, root: Frame, f: Frame, vp: nat)
    requires |m| == CELLS && vp < ADDRESS_SPACE
  {
    Walk(m, root, vp).Some? && Walk(m, root, vp).value.frame == f
  }

  /** A frame that nobody held is behind none of the pages. */
  lemma FreshFrame(m: seq<Page>, root: Frame, held: set<nat>, lo: nat, hi: nat, f: Frame)
    requires |m| == CELLS && hi <= ADDRESS_SPACE && OwnPages(m, root, held, lo, hi) && f !in held
    ensures !InUseAs(m, root, f, lo, hi)
  {
    forall vp | lo <= vp < hi ensures !Backs(m, root, f, vp) { assert OwnPage(m, root, held, vp); }
  }

  lemma HeldMore(m: seq<Page>, root: Frame, held: set<nat>, more: set<nat>, lo: nat, hi: nat)
    requires |m| == CELLS && hi <= ADDRESS_SPACE && OwnPages(m, root, held, lo, hi) && held <= more
    ensures OwnPages(m, root, more, lo, hi)
  {
    forall vp | lo <= vp < hi ensures OwnPage(m, root, more, vp) { assert OwnPage(m, root, held, vp); }
  }

  lemma HeldLess(m: seq<Page>, root: Frame, held: set<nat>, f: Frame, lo: nat, hi: nat)
    requires |m| == CELLS && hi <= ADDRESS_SPACE && OwnPages(m, root, held, lo, hi) && !InUseAs(m, root, f, lo, hi)
    ensures OwnPages(m, root, held - {f as int}, lo, hi)
  {
    var less := held - {f as int};
    forall vp | lo <= vp < hi ensures OwnPage(m, root, less, vp) {
      assert OwnPage(m, root, held, vp) && !Backs(m, root, f, vp);
    }
  }

  /** In the kernel's half, below the window, no page has a twin. */
  lemma NoTwins(vp: nat, wp: nat)
    requires KERNEL_PAGE <= vp < WINDOW_PAGE && KERNEL_PAGE <= wp < WINDOW_PAGE
    ensures Twins(wp, vp) <==> wp == vp
    ensures vp / SLOTS < RECURSIVE && wp / SLOTS != RECURSIVE && vp / SLOTS != 0
  {
  }

  /** What mapping the kernel page `vp` does to the other kernel pages. */
  lemma KernelWalk(m: seq<Page>, root: Frame, f: Frame, vp: nat, table: Frame, wp: nat)
    requires KERNEL_PAGE <= vp < WINDOW_PAGE && KERNEL_PAGE <= wp < WINDOW_PAGE
    requires |m| == CELLS && TablesOk(m, root) && TableFits(m, root, vp, table)
    ensures vp / SLOTS < RECURSIVE && f * 0x1000 < WORD
    ensures Walk(MapMem(m, root, f * 0x1000, vp, 3, table), root, wp) ==
      if wp == vp then Some(Mapping(f, true, false)) else Walk(m, root, wp)
  {
    NoTwins(vp, wp);
    MapWalk(m, root, f * 0x1000, vp, 3, table, wp);
    assert wp != Window(vp / SLOTS);
  }

  /** A frame that is no table stays none, unless it is the new table. */
  lemma KernelNoTable(m: seq<Page>, root: Frame, phys: nat, vp: nat, table: Frame, f: Frame)
    requires vp < ADDRESS_SPACE && vp / SLOTS < RECURSIVE && phys < WORD
    requires |m| == CELLS && TablesOk(m, root) && TableFits(m, root, vp, table)
    requires NoTable(m, root, f) && (!Pde(m, root, vp / SLOTS).present ==> f != table)
    ensures NoTable(MapMem(m, root, phys, vp, 3, table), root, f)
  {
    PreparedOk(m, root, vp, table);
    var m1 := Prepared(m, root, vp, table);
    assert SlotOk(m1, root, vp / SLOTS);
    var m2 := MapMem(m, root, phys, vp, 3, table);
    forall d: nat | d < RECURSIVE && Pde(m2, root, d).present ensures Pde(m2, root, d).frame != f {
      PutPtePde(m1, root, vp / SLOTS, vp % SLOTS, NewPte(Pte(m1, root, vp), phys, 3), d);
      if !Pde(m, root, vp / SLOTS).present { NewTablePde(m, root, vp / SLOTS, table, d); }
    }
  }

  /** Mapping one more page, at the end of those there are, on a frame behind none of them. */
  lemma OneMorePage(m: seq<Page>, root: Frame, held: set<nat>, lo: nat, vp: nat, f: Frame, table: Frame)
    requires |m| == CELLS && KERNEL_PAGE <= lo <= vp < WINDOW_PAGE && OwnPages(m, root, held, lo, vp)
    requires TablesOk(m, root) && TableFits(m, root, vp, table)
    requires f in held && NoTable(m, root, f) && !InUseAs(m, root, f, lo, vp)
    requires !Pde(m, root, vp / SLOTS).present ==> table !in held
    ensures vp / SLOTS < RECURSIVE && f * 0x1000 < WORD
    ensures OwnPages(MapMem(m, root, f * 0x1000, vp, 3, table), root, held, lo, vp + 1)
  {
    NoTwins(vp, vp);
    var m2 := MapMem(m, root, f * 0x1000, vp, 3, table);
    forall wp: nat | lo <= wp < vp + 1
      ensures Walk(m2, root, wp) == (if wp == vp then Some(Mapping(f, true, false)) else Walk(m, root, wp))
      ensures OwnPage(m2, root, held, wp) && (wp != vp ==> Walk(m, root, wp) != Some(Mapping(f, true, false)))
    {
      KernelWalk(m, root, f, vp, table, wp);
      if wp == vp {
        KernelNoTable(m, root, f * 0x1000, vp, table, f);
      } else {
        assert OwnPage(m, root, held, wp) && !Backs(m, root, f, wp);
        KernelNoTable(m, root, f * 0x1000, vp, table, Walk(m, root, wp).value.frame);
      }
    }
  }

  lemma OneMoreMapped(m: seq<Page>, root: Frame, vp: nat, f: Frame, table: Frame)
    requires |m| == CELLS && KERNEL_PAGE <= vp < WINDOW_PAGE && TablesOk(m, root) && TableFits(m, root, vp, table)
    ensures vp / SLOTS < RECURSIVE && f * 0x1000 < WORD
    ensures MappedPages(MapMem(m, root, f * 0x1000, vp, 3, table), root) == MappedPages(m, root) + {vp}
  {
    NoTwins(vp, vp);
    var m2 := MapMem(m, root, f * 0x1000, vp, 3, table);
    forall wp: nat | KERNEL_PAGE <= wp < WINDOW_PAGE
      ensures Walk(m2, root, wp) == (if wp == vp then Some(Mapping(f, true, false)) else Walk(m, root, wp))
    {
      KernelWalk(m, root, f, vp, table, wp);
    }
  }

  // ---------------------------------------------------------------- what growth costs

  /** The slots that have a table. */
  ghost function Tables(m: seq<Page>, root: Frame): (r: set<nat>)
    requires |m| == CELLS
  {
    set d | 0 <= d < RECURSIVE && Pde(m, root, d).present
  }

  /** The slots of the pages from `lo` up to `hi`. */
  function Slots(lo: nat, hi: nat): set<nat> {
    if lo >= hi then {} else Pages(lo / SLOTS, (hi - 1) / SLOTS + 1)
  }

  /** The frames it takes to map these pages when the slots of `tables` have a table: one for each page, and one for
      each table that is not there. */
  ghost function Cost(tables: set<nat>, lo: nat, hi: nat): nat {
    (if lo < hi then hi - lo else 0) + FrameAllocator.Size(Slots(lo, hi) - tables)
  }

  lemma CostOne(tables: set<nat>, vp: nat)
    ensures Slots(vp, vp + 1) == {vp / SLOTS} && Cost(tables, vp, vp + 1) == if vp / SLOTS in tables then 1 else 2
  {
    assert Slots(vp, vp + 1) == {vp / SLOTS};
    assert {vp / SLOTS} - tables == if vp / SLOTS in tables then {} else {vp / SLOTS};
    FrameAllocator.SizeIs({vp / SLOTS} - tables);
  }

  lemma SlotsSplit(lo: nat, mid: nat, hi: nat)
    requires lo <= mid <= hi
    ensures Slots(lo, hi) == Slots(lo, mid) + Slots(mid, hi)
  {
    if lo < mid < hi {
      assert lo / SLOTS <= (mid - 1) / SLOTS <= mid / SLOTS <= (mid - 1) / SLOTS + 1 && mid / SLOTS <= (hi - 1) / SLOTS;
    }
  }

  lemma Disjoint(a: set<nat>, b: set<nat>)
    requires a !! b
    ensures FrameAllocator.Size(a + b) == FrameAllocator.Size(a) + FrameAllocator.Size(b)
  {
    FrameAllocator.SizeIs(a);
    FrameAllocator.SizeIs(b);
    FrameAllocator.SizeIs(a + b);
  }

  /** Mapping in two stretches costs what mapping in one does. */
  lemma CostSplit(tables: set<nat>, lo: nat, mid: nat, hi: nat)
    requires lo <= mid <= hi
    ensures Cost(tables, lo, hi) == Cost(tables, lo, mid) + Cost(tables + Slots(lo, mid), mid, hi)
  {
    SlotsSplit(lo, mid, hi);
    var a, b := Slots(lo, mid) - tables, Slots(mid, hi) - (tables + Slots(lo, mid));
    assert Slots(lo, hi) - tables == a + b;
    Disjoint(a, b);
  }

  lemma CostGrows(tables: set<nat>, lo: nat, mid: nat, hi: nat)
    requires lo <= mid <= hi
    ensures Cost(tables, lo, mid) <= Cost(tables, lo, hi)
  {
    CostSplit(tables, lo, mid, hi);
  }

  /** What growth is paid from: the tables there are, and how many frames can be had. */
  datatype Purse = Purse(tables: set<nat>, have: nat)

  ghost predicate Enough(p: Purse, lo: nat, hi: nat) {
    p.have >= Cost(p.tables, lo, hi)
  }

  /** The pages from `lo` up to `hi` have been mapped. */
  ghost predicate Paid(p: Purse, q: Purse, lo: nat, hi: nat) {
    q.tables == p.tables + Slots(lo, hi) && q.have + Cost(p.tables, lo, hi) == p.have
  }

  lemma PaidNone(p: Purse, lo: nat)
    ensures Paid(p, p, lo, lo)
  {
    assert Slots(lo, lo) - p.tables == {} && p.tables + {} == p.tables;
  }

  lemma PaidMore(p: Purse, p1: Purse, q: Purse, lo: nat, mid: nat, hi: nat)
    requires lo <= mid <= hi && Paid(p, p1, lo, mid) && Paid(p1, q, mid, hi)
    ensures Paid(p, q, lo, hi)
  {
    CostSplit(p.tables, lo, mid, hi);
    SlotsSplit(lo, mid, hi);
  }

  /** Of the pages from `from` up to `to` those up to `vp` can be had, and no more. */
  ghost predicate Afforded(p: Purse, from: nat, to: nat, vp: nat) {
    Enough(p, from, vp) && (vp < to ==> !Enough(p, from, vp + 1) && !Enough(p, from, to))
  }

  /** If the pages up to `mid` have been paid for and the next cannot, then no more than these can. */
  lemma PaidNoMore(p: Purse, p1: Purse, lo: nat, mid: nat, hi: nat)
    requires lo <= mid < hi && Paid(p, p1, lo, mid) && !Enough(p1, mid, mid + 1)
    ensures Afforded(p, lo, hi, mid)
  {
    CostSplit(p.tables, lo, mid, mid + 1);
    CostGrows(p.tables, lo, mid + 1, hi);
  }

  lemma EnoughSplit(p: Purse, q: Purse, lo: nat, mid: nat, hi: nat)
    requires lo <= mid <= hi && Paid(p, q, lo, mid) && Enough(p, lo, hi)
    ensures Enough(q, mid, hi)
  {
    CostSplit(p.tables, lo, mid, hi);
  }

  /** The tables after a page was mapped. */
  lemma MapTables(m: seq<Page>, root: Frame, phys: nat, vp: nat, table: Frame)
    requires vp < WINDOW_PAGE && phys < WORD && vp / SLOTS < RECURSIVE
    requires |m| == CELLS && TablesOk(m, root) && TableFits(m, root, vp, table)
    ensures Tables(MapMem(m, root, phys, vp, 3, table), root) == Tables(m, root) + {vp / SLOTS}
  {
    PreparedOk(m, root, vp, table);
    var m1 := Prepared(m, root, vp, table);
    assert SlotOk(m1, root, vp / SLOTS);
    var m2 := MapMem(m, root, phys, vp, 3, table);
    forall d: nat | d < RECURSIVE ensures Pde(m2, root, d).present <==> Pde(m, root, d).present || d == vp / SLOTS {
      PutPtePde(m1, root, vp / SLOTS, vp % SLOTS, NewPte(Pte(m1, root, vp), phys, 3), d);
      if !Pde(m, root, vp / SLOTS).present { NewTablePde(m, root, vp / SLOTS, table, d); }
    }
  }

  /** vmm_page_map can map a page exactly if its table is there or a frame can be had for one. */
  lemma MapPaid(s: Space, root: Frame, phys: nat, vp: nat, table: Option<Frame>, p: FrameAllocator.Pool,
                q: FrameAllocator.Pool, initial: set<nat>, s2: Space, r: int)
    requires SpaceOk(s, root) && Owns(s.mem, root, p, initial) && phys < WORD && KERNEL_PAGE <= vp < WINDOW_PAGE
    requires TableAsked(s.mem, root, vp, p, q, table) && vp / SLOTS < RECURSIVE
    requires (s2, r) == MapStep(s, root, phys, vp, 3, table)
    ensures |s2.mem| == CELLS
    ensures var purse := Purse(Tables(s.mem, root), Have(p) + 1);
      && (r == 0 <==> Enough(purse, vp, vp + 1))
      && (r == 0 ==> Paid(purse, Purse(Tables(s2.mem, root), Have(q)), vp, vp + 1))
  {
    CostOne(Tables(s.mem, root), vp);
    AskedOwns(s.mem, root, vp, p, initial, q, table);
    if Pde(s.mem, root, vp / SLOTS).present {
      MapTables(s.mem, root, phys, vp, Pde(s.mem, root, vp / SLOTS).frame);
    } else {
      var address: nat :| TableGiven(p, address, q, table);
      FrameAllocator.AllocAvailable(p, initial, address, q);
      if table.Some? { MapTables(s.mem, root, phys, vp, table.value); }
    }
  }

  // ---------------------------------------------------------------- one page of growth

  ghost predicate Ready(mmu: Mmu, initial: set<nat>)
    reads mmu, mmu.mem, mmu.pmm, mmu.pmm.bitmap, mmu.pmm.preFrames
  {
    mmu.mem.Length == CELLS && SpaceOk(mmu.View(), mmu.root) && mmu.pmm.Valid()
    && Owns(mmu.mem[..], mmu.root, mmu.pmm.View(), initial)
  }

  /** How many frames can be had. */
  ghost function Have(p: FrameAllocator.Pool): nat {
    FrameAllocator.Available(p)
  }

  ghost function PurseOf(mmu: Mmu): Purse
    requires mmu.mem.Length == CELLS && mmu.pmm.Valid()
    reads mmu, mmu.mem, mmu.pmm, mmu.pmm.bitmap, mmu.pmm.preFrames
  {
    Purse(Tables(mmu.mem[..], mmu.root), Have(mmu.pmm.View()))
  }

  /** The outcome of a vmm_page_map that asked for a table as described in its contract. */
  lemma MapOutcome(s: Space, root: Frame, phys: nat, vp: nat, table: Option<Frame>, p: FrameAllocator.Pool,
                   q: FrameAllocator.Pool, initial: set<nat>, s2: Space, r: int)
    requires SpaceOk(s, root) && Owns(s.mem, root, p, initial) && phys < WORD && KERNEL_PAGE <= vp < WINDOW_PAGE
    requires TableAsked(s.mem, root, vp, p, q, table) && vp / SLOTS < RECURSIVE
    requires (s2, r) == MapStep(s, root, phys, vp, 3, table)
    ensures SpaceOk(s2, root) && p.held <= q.held
    ensures r != 0 ==> s2.mem == s.mem && q.held == p.held
    ensures r == 0 ==> exists frame: Frame :: Outcome(s, root, phys, vp, p, frame, s2)
  {
    AskedOwns(s.mem, root, vp, p, initial, q, table);
    PagingRuns.MapStepOk(s, root, phys, vp, 3, table);
    TableHeld(s.mem, root, vp, p, initial, q, table);
    if r == 0 {
      var frame := if Pde(s.mem, root, vp / SLOTS).present then Pde(s.mem, root, vp / SLOTS).frame else table.value;
      assert Outcome(s, root, phys, vp, p, frame, s2);
    }
  }

  ghost predicate Outcome(s: Space, root: Frame, phys: nat, vp: nat, p: FrameAllocator.Pool, frame: Frame, s2: Space)
    requires |s.mem| == CELLS && vp < ADDRESS_SPACE && phys < WORD
  {
    s2.mem == MapMem(s.mem, root, phys, vp, 3, frame) && TableFits(s.mem, root, vp, frame)
    && (!Pde(s.mem, root, vp / SLOTS).present ==> frame !in p.held)
  }

  /** What asking for a table does to the frames held. */
  lemma TableHeld(m: seq<Page>, root: Frame, vp: nat, p: FrameAllocator.Pool, initial: set<nat>, q: FrameAllocator.Pool, table: Option<Frame>)
    requires |m| == CELLS && vp < ADDRESS_SPACE && Owns(m, root, p, initial) && TableAsked(m, root, vp, p, q, table)
    ensures table.None? ==> q.held == p.held
    ensures table.Some? ==> table.value !in p.held && q.held == p.held + {table.value as int}
  {
    if !Pde(m, root, vp / SLOTS).present {
      var address: nat :| TableGiven(p, address, q, table);
      FrameAllocator.AllocSound(p, initial, address, q);
    }
  }

  /** A frame fresh from the allocator is behind none of the pages, and no table. */
  lemma NewFrame(m: seq<Page>, root: Frame, p: FrameAllocator.Pool, initial: set<nat>, address: nat, q: FrameAllocator.Pool, lo: nat, hi: nat)
    requires |m| == CELLS && hi <= ADDRESS_SPACE && Owns(m, root, p, initial) && FrameAllocator.AllocStep(p, q, address)
    requires OwnPages(m, root, p.held, lo, hi)
    ensures Owns(m, root, q, initial) && OwnPages(m, root, q.held, lo, hi)
    ensures address == 0 ==> q.held == p.held
    ensures address != 0 ==> address % 0x1000 == 0 && 256 <= address / 0x1000 < FRAMES && NoTable(m, root, address / 0x1000)
    ensures address != 0 ==> address / 0x1000 !in p.held && q.held == p.held + {address / 0x1000} && !InUseAs(m, root, address / 0x1000, lo, hi)
  {
    AllocOwns(m, root, p, initial, address, q);
    FrameAllocator.AllocSound(p, initial, address, q);
    HeldMore(m, root, p.held, q.held, lo, hi);
    FrameAllocator.WholeFrames(p, q, address);
    if address != 0 { FreshFrame(m, root, p.held, lo, hi, address / 0x1000); }
  }

  /** The page is mapped: it joins those that are the kernel's own. */
  lemma PageDone(s: Space, root: Frame, page: nat, vp: nat, p: FrameAllocator.Pool, frame: Frame, s2: Space, held: set<nat>, lo: nat)
    requires SpaceOk(s, root) && page % 0x1000 == 0 && page / 0x1000 < FRAMES && page < WORD
    requires KERNEL_PAGE <= lo <= vp < WINDOW_PAGE && Outcome(s, root, page, vp, p, frame, s2)
    requires OwnPages(s.mem, root, p.held, lo, vp) && page / 0x1000 in p.held && p.held <= held
    requires NoTable(s.mem, root, page / 0x1000) && !InUseAs(s.mem, root, page / 0x1000, lo, vp)
    ensures |s2.mem| == CELLS && OwnPages(s2.mem, root, held, lo, vp + 1)
    ensures MappedPages(s2.mem, root) == MappedPages(s.mem, root) + {vp}
  {
    WholePage(page);
    NoTwins(vp, vp);
    OneMorePage(s.mem, root, p.held, lo, vp, page / 0x1000, frame);
    OneMoreMapped(s.mem, root, vp, page / 0x1000, frame);
    HeldMore(s2.mem, root, p.held, held, lo, vp + 1);
  }

  lemma WholePage(page: nat)
    requires page % 0x1000 == 0
    ensures page / 0x1000 * 0x1000 == page
  {
  }

  /** The page in hand: a whole frame, held, no table, behind none of the pages. */
  ghost predicate InHand(m: seq<Page>, root: Frame, held: set<nat>, page: nat, lo: nat, hi: nat)
    requires |m| == CELLS && hi <= ADDRESS_SPACE
  {
    && page % 0x1000 == 0 && 256 <= page / 0x1000 < FRAMES && page / 0x1000 in held
    && NoTable(m, root, page / 0x1000) && !InUseAs(m, root, page / 0x1000, lo, hi)
  }

  method GiveBack(mmu: Mmu, page: nat, ghost initial: set<nat>, ghost lo: nat, ghost hi: nat)
    requires Ready(mmu, initial) && hi <= ADDRESS_SPACE && OwnPages(mmu.mem[..], mmu.root, mmu.pmm.held, lo, hi)
    requires InHand(mmu.mem[..], mmu.root, mmu.pmm.held, page, lo, hi)
    modifies mmu.pmm, mmu.pmm.bitmap
    ensures Ready(mmu, initial) && OwnPages(mmu.mem[..], mmu.root, mmu.pmm.held, lo, hi)
    ensures FrameAllocator.FreeStep(old(mmu.pmm.View()), mmu.pmm.View(), page)
  {
    ghost var m, p := mmu.mem[..], mmu.pmm.View();
    mmu.pmm.FreePage(page);
    PagingRuns.FreeOwns(m, mmu.root, p, initial, page, mmu.pmm.View());
    HeldLess(m, mmu.root, p.held, page / 0x1000, lo, hi);
  }

  /** increment_brk, line 51: the page is mapped, or nothing is. */
  method MapPage(mmu: Mmu, page: nat, vaddr: nat, ghost initial: set<nat>, ghost lo: nat) returns (r: int)
    requires Ready(mmu, initial) && vaddr < WORD && KERNEL_PAGE <= lo <= vaddr / 0x1000 < WINDOW_PAGE
    requires OwnPages(mmu.mem[..], mmu.root, mmu.pmm.held, lo, vaddr / 0x1000)
    requires InHand(mmu.mem[..], mmu.root, mmu.pmm.held, page, lo, vaddr / 0x1000)
    modifies mmu, mmu.mem, mmu.pmm, mmu.pmm.bitmap, mmu.pmm.preFrames
    ensures Ready(mmu, initial)
    ensures r == 0 ==> OwnPages(mmu.mem[..], mmu.root, mmu.pmm.held, lo, vaddr / 0x1000 + 1)
    ensures r == 0 ==> MappedPages(mmu.mem[..], mmu.root) == MappedPages(old(mmu.mem[..]), mmu.root) + {vaddr / 0x1000}
    ensures r != 0 ==> mmu.mem[..] == old(mmu.mem[..]) && mmu.pmm.held == old(mmu.pmm.held)
    ensures var purse := Purse(old(PurseOf(mmu)).tables, old(PurseOf(mmu)).have + 1);
      && (r == 0 <==> Enough(purse, vaddr / 0x1000, vaddr / 0x1000 + 1))
      && (r == 0 ==> Paid(purse, PurseOf(mmu), vaddr / 0x1000, vaddr / 0x1000 + 1))
  {
    ghost var s, root, vp, p := mmu.View(), mmu.root, vaddr / 0x1000, mmu.pmm.View();
    NoTwins(vp, vp);
    ghost var table;
    r, table := mmu.PageMap(page, vaddr, 3, initial);
    ghost var q := mmu.pmm.View();
    MapOutcome(s, root, page, vp, table, p, q, initial, mmu.View(), r);
    MapPaid(s, root, page, vp, table, p, q, initial, mmu.View(), r);
    if r == 0 {
      ghost var frame: Frame :| Outcome(s, root, page, vp, p, frame, mmu.View());
      PageDone(s, root, page, vp, p, frame, mmu.View(), q.held, lo);
    }
  }

  /** increment_brk, line 46: a page, if there is one. */
  method TakePage(mmu: Mmu, ghost initial: set<nat>, ghost lo: nat, ghost hi: nat) returns (page: nat)
    requires Ready(mmu, initial) && hi <= ADDRESS_SPACE && OwnPages(mmu.mem[..], mmu.root, mmu.pmm.held, lo, hi)
    modifies mmu.pmm, mmu.pmm.bitmap, mmu.pmm.preFrames
    ensures Ready(mmu, initial) && OwnPages(mmu.mem[..], mmu.root, mmu.pmm.held, lo, hi)
    ensures page != 0 ==> InHand(mmu.mem[..], mmu.root, mmu.pmm.held, page, lo, hi)
    ensures mmu.pmm.held == old(mmu.pmm.held) + if page == 0 then {} else {page / 0x1000}
    ensures page != 0 ==> page / 0x1000 !in old(mmu.pmm.held)
    ensures page == 0 <==> old(PurseOf(mmu)).have == 0
    ensures page != 0 ==> PurseOf(mmu).tables == old(PurseOf(mmu)).tables && PurseOf(mmu).have + 1 == old(PurseOf(mmu)).have
  {
    ghost var p := mmu.pmm.View();
    page := mmu.pmm.AllocPage();
    NewFrame(mmu.mem[..], mmu.root, p, initial, page, mmu.pmm.View(), lo, hi);
    FrameAllocator.AllocAvailable(p, initial, page, mmu.pmm.View());
  }

  /** increment_brk, lines 46-58: a page is taken and mapped at page `vp`; if there is no table for it, it is
      given back. */
  method MapHeapPage(mmu: Mmu, vaddr: nat, ghost vp: nat, ghost initial: set<nat>, ghost lo: nat) returns (ok: bool)
    requires Ready(mmu, initial) && vaddr < WORD && vaddr / 0x1000 == vp && KERNEL_PAGE <= lo <= vp < WINDOW_PAGE
    requires OwnPages(mmu.mem[..], mmu.root, mmu.pmm.held, lo, vp)
    modifies mmu, mmu.mem, mmu.pmm, mmu.pmm.bitmap, mmu.pmm.preFrames
    ensures Ready(mmu, initial)
    ensures OwnPages(mmu.mem[..], mmu.root, mmu.pmm.held, lo, if ok then vp + 1 else vp)
    ensures MappedPages(mmu.mem[..], mmu.root) == MappedPages(old(mmu.mem[..]), mmu.root) + if ok then {vp} else {}
    ensures !ok ==> mmu.mem[..] == old(mmu.mem[..]) && mmu.pmm.held == old(mmu.pmm.held)
    ensures ok <==> Enough(old(PurseOf(mmu)), vp, vp + 1)
    ensures ok ==> Paid(old(PurseOf(mmu)), PurseOf(mmu), vp, vp + 1)
  {
    CostOne(Tables(mmu.mem[..], mmu.root), vp);
    var page := TakePage(mmu, initial, lo, vp);
    if page == 0 {
      return false;
    }
    var r := MapPage(mmu, page, vaddr, initial, lo);
    if r != 0 {
      GiveBack(mmu, page, initial, lo, vp);
    }
    ok := r == 0;
  }

  // ---------------------------------------------------------------- growth

  /** Half-way through the mapping loop: the pages from `from` up to `vp` are mapped, beside those mapped before. */
  ghost predicate Progress(mmu: Mmu, initial: set<nat>, lo: nat, from: nat, vp: nat, mapped: set<nat>)
    requires vp <= ADDRESS_SPACE
    reads mmu, mmu.mem, mmu.pmm, mmu.pmm.bitmap, mmu.pmm.preFrames
  {
    && Ready(mmu, initial) && OwnPages(mmu.mem[..], mmu.root, mmu.pmm.held, lo, vp)
    && MappedPages(mmu.mem[..], mmu.root) == mapped + Pages(from, vp)
  }

  lemma PageOf(vp: nat)
    ensures 4096 * vp / 0x1000 == vp
  {
  }

  lemma OnePageOn(mapped: set<nat>, from: nat, vp: nat)
    requires from <= vp
    ensures mapped + Pages(from, vp + 1) == mapped + Pages(from, vp) + {vp}
  {
  }

  /** What one more page, or the failure to map it, does to the account. */
  lemma PaidNext(p: Purse, p1: Purse, q: Purse, from: nat, vp: nat, to: nat, ok: bool, next: nat)
    requires from <= vp < to && Paid(p, p1, from, vp) && (ok <==> Enough(p1, vp, vp + 1))
    requires next == (if ok then vp + 1 else vp) && (ok ==> Paid(p1, q, vp, next))
    ensures if ok then Paid(p, q, from, next) else Afforded(p, from, to, next)
  {
    if ok { PaidMore(p, p1, q, from, vp, vp + 1); } else { PaidNoMore(p, p1, from, vp, to); }
  }

  lemma PaidOr(p: Purse, q: Purse, from: nat, cur: nat, to: nat, top: nat, vp: nat, ok: bool)
    requires from == cur <= vp <= to == top && (ok <==> vp == to) && if ok then Paid(p, q, from, vp) else Afforded(p, from, to, vp)
    ensures ok <==> Enough(p, cur, top)
    ensures if ok then Paid(p, q, cur, top) else Afforded(p, cur, top, vp)
  {
  }

  /** One round of the mapping loop. */
  method Advance(mmu: Mmu, vaddr: nat, ghost vp: nat, ghost initial: set<nat>, ghost lo: nat, ghost from: nat, ghost to: nat,
    ghost mapped: set<nat>, ghost purse: Purse) returns (ok: bool, ghost next: nat)
    requires KERNEL_PAGE <= lo <= from <= vp < to <= WINDOW_PAGE && vaddr == 4096 * vp
    requires Progress(mmu, initial, lo, from, vp, mapped) && Paid(purse, PurseOf(mmu), from, vp)
    modifies mmu, mmu.mem, mmu.pmm, mmu.pmm.bitmap, mmu.pmm.preFrames
    ensures next == (if ok then vp + 1 else vp) && Progress(mmu, initial, lo, from, next, mapped)
    ensures if ok then Paid(purse, PurseOf(mmu), from, next) else Afforded(purse, from, to, next)
  {
    ghost var p1 := PurseOf(mmu);
    PageOf(vp);
    OnePageOn(mapped, from, vp);
    ok := MapHeapPage(mmu, vaddr, vp, initial, lo);
    next := if ok then vp + 1 else vp;
    PaidNext(purse, p1, PurseOf(mmu), from, vp, to, ok, next);
  }

  /** The mapping loop of increment_brk, from page `from` up to page `to`, as far as it gets. */
  method MapHeapPages(mmu: Mmu, from: nat, to: nat, ghost initial: set<nat>, ghost lo: nat) returns (ok: bool, ghost vp: nat)
    requires Ready(mmu, initial) && KERNEL_PAGE <= lo <= from <= to <= WINDOW_PAGE
    requires OwnPages(mmu.mem[..], mmu.root, mmu.pmm.held, lo, from)
    modifies mmu, mmu.mem, mmu.pmm, mmu.pmm.bitmap, mmu.pmm.preFrames
    ensures from <= vp <= to && (ok <==> vp == to)
    ensures Progress(mmu, initial, lo, from, vp, MappedPages(old(mmu.mem[..]), mmu.root))
    ensures if ok then Paid(old(PurseOf(mmu)), PurseOf(mmu), from, vp) else Afforded(old(PurseOf(mmu)), from, to, vp)
  {
    ghost var mapped, purse := MappedPages(mmu.mem[..], mmu.root), PurseOf(mmu);
    PaidNone(purse, from);
    var vaddr := 4096 * from;
    vp := from;
    while vaddr < 4096 * to
      invariant vaddr == 4096 * vp && from <= vp <= to
      invariant Progress(mmu, initial, lo, from, vp, mapped) && Paid(purse, PurseOf(mmu), from, vp)
    {
      ok, vp := Advance(mmu, vaddr, vp, initial, lo, from, to, mapped, purse);
      if !ok {
        return;
      }
      vaddr := vaddr + 4096;
    }
    ok := true;
  }

  lemma OwnFewer(m: seq<Page>, root: Frame, held: set<nat>, lo: nat, hi: nat, more: nat)
    requires |m| == CELLS && hi <= more <= ADDRESS_SPACE && OwnPages(m, root, held, lo, more)
    ensures OwnPages(m, root, held, lo, hi)
  {
  }

  /** The number of the first whole page at or above `x`. */
  function Ceil(x: nat): nat {
    (x + 4095) / 4096
  }

  /** Growth by `done` of the pages it needs. */
  lemma GrownBy(b: Break, inc: nat, done: nat)
    requires Wf(b) && b.brk + inc + 4095 < 0xFFC0_0000
    ensures var cur, top := Ceil(b.brk), Ceil(b.brk + inc);
      && PageUp(b.brk) / 4096 == cur && PageUp(Wrap(b.brk + inc)) / 4096 == top && Wrap(b.brk + inc) == b.brk + inc
      && KERNEL_PAGE <= cur <= top <= WINDOW_PAGE
      && (done < top - cur ==> Grow(b, inc, done) == (b.(mapped := b.mapped + Pages(cur, cur + done)), false))
      && (done == top - cur ==> Grow(b, inc, done) == (b.(brk := b.brk + inc, mapped := b.mapped + Pages(cur, top)), true))
  {
    NeedExact(b, inc);
    PageUpExact(b.brk + inc);
  }

  /** What the mapping loop leaves behind is the growth. */
  lemma GrowthDone(m: seq<Page>, root: Frame, held: set<nat>, lo: nat, b: Break, inc: nat, done: nat, vp: nat, ok: bool, c: Break)
    requires |m| == CELLS && Wf(b) && b.brk + inc + 4095 < 0xFFC0_0000
    requires var cur, top := Ceil(b.brk), Ceil(b.brk + inc);
      && vp == cur + done <= top && (ok <==> vp == top) && vp <= ADDRESS_SPACE && OwnPages(m, root, held, lo, vp)
      && c == Break(b.start, if ok then b.brk + inc else b.brk, b.mapped + Pages(cur, vp))
    ensures c.brk + 4095 < 0xFFC0_0000 && OwnPages(m, root, held, lo, Ceil(c.brk))
    ensures (c, ok) == Grow(b, inc, done)
  {
    GrownBy(b, inc, done);
    var cur := Ceil(b.brk);
    if !ok { OwnFewer(m, root, held, lo, cur, vp); }
  }

  // ---------------------------------------------------------------- shrinking

  /** The frames that decrement_brk frees for the pages from `lo` up to `hi`: those at the addresses V2P gives. */
  function V2PFrames(lo: nat, hi: nat): set<nat>
    requires KERNEL_PAGE <= lo && KERNEL_PAGE <= hi
  {
    Pages(lo - KERNEL_PAGE, hi - KERNEL_PAGE)
  }

  /** The frames these pages are really on. */
  ghost function BackingFrames(m: seq<Page>, root: Frame, lo: nat, hi: nat): set<nat>
    requires |m| == CELLS && hi <= ADDRESS_SPACE
    decreases hi - lo
  {
    if lo >= hi then {}
    else BackingFrames(m, root, lo + 1, hi) + if Walk(m, root, lo).Some? then {Walk(m, root, lo).value.frame as int} else {}
  }

  lemma {:induction false} BackingIs(m: seq<Page>, root: Frame, lo: nat, hi: nat, f: nat)
    requires |m| == CELLS && hi <= ADDRESS_SPACE
    ensures f in BackingFrames(m, root, lo, hi) <==> f < FRAMES && InUseAs(m, root, f, lo, hi)
    decreases hi - lo
  {
    if lo < hi {
      BackingIs(m, root, lo + 1, hi, f);
      if f < FRAMES && Backs(m, root, f, lo) { assert InUseAs(m, root, f, lo, hi); }
      if f < FRAMES && InUseAs(m, root, f, lo + 1, hi) {
        var vp :| lo + 1 <= vp < hi && Backs(m, root, f, vp);
        assert Backs(m, root, f, vp);
      }
    }
  }

  /** pmm_free_page for each of `fs`. */
  function Returned(p: FrameAllocator.Pool, fs: set<nat>): FrameAllocator.Pool {
    p.(free := p.free + fs, held := p.held - fs)
  }

  /** The kernel pages from `lo` up to `hi` are unmapped; the others and the directory are as they were. */
  ghost predicate Unmapped(m: seq<Page>, m2: seq<Page>, root: Frame, lo: nat, hi: nat) {
    && |m| == CELLS && |m2| == CELLS
    && (forall d :: 0 <= d < RECURSIVE ==> Pde(m2, root, d) == Pde(m, root, d))
    && forall vp :: KERNEL_PAGE <= vp < WINDOW_PAGE ==> Walk(m2, root, vp) == if lo <= vp < hi then None else Walk(m, root, vp)
  }

  lemma UnmapOne(m: seq<Page>, root: Frame, vp: nat)
    requires |m| == CELLS && TablesOk(m, root) && KERNEL_PAGE <= vp < WINDOW_PAGE
    ensures Unmapped(m, UnmapMem(m, root, vp), root, vp, vp + 1)
  {
    NoTwins(vp, vp);
    assert Pde(m, root, vp / SLOTS).present ==> SlotOk(m, root, vp / SLOTS);
    forall wp: nat | KERNEL_PAGE <= wp < WINDOW_PAGE
      ensures Walk(UnmapMem(m, root, vp), root, wp) == if wp == vp then None else Walk(m, root, wp)
    {
      NoTwins(vp, wp);
      UnmapWalk(m, root, vp, wp);
    }
    forall d: nat | d < RECURSIVE ensures Pde(UnmapMem(m, root, vp), root, d) == Pde(m, root, d) {
      if Pde(m, root, vp / SLOTS).present {
        PutPtePde(m, root, vp / SLOTS, vp % SLOTS, Pte(m, root, vp).(present := false, frame := 0), d);
      }
    }
  }

  lemma UnmappedMore(m: seq<Page>, m1: seq<Page>, m2: seq<Page>, root: Frame, lo: nat, hi: nat)
    requires Unmapped(m, m1, root, lo + 1, hi) && Unmapped(m1, m2, root, lo, lo + 1) && lo < hi
    ensures Unmapped(m, m2, root, lo, hi)
  {
    forall d: nat | d < RECURSIVE ensures Pde(m2, root, d) == Pde(m, root, d) { assert Pde(m1, root, d) == Pde(m, root, d); }
    forall vp: nat | KERNEL_PAGE <= vp < WINDOW_PAGE
      ensures Walk(m2, root, vp) == if lo <= vp < hi then None else Walk(m, root, vp)
    {
      assert Walk(m1, root, vp) == if lo + 1 <= vp < hi then None else Walk(m, root, vp);
    }
  }

  lemma MappedFewer(m: seq<Page>, m2: seq<Page>, root: Frame, lo: nat, hi: nat)
    requires Unmapped(m, m2, root, lo, hi)
    ensures MappedPages(m2, root) == MappedPages(m, root) - Pages(lo, hi)
  {
  }

  /** Freeing frames keeps the accounts of the frame allocator exactly if each was held or free already. */
  lemma ReturnedAccountedIff(p: FrameAllocator.Pool, initial: set<nat>, fs: set<nat>)
    requires FrameAllocator.Accounted(p, initial)
    ensures FrameAllocator.Accounted(Returned(p, fs), initial) <==> fs <= p.held + p.free
  {
    var q, cached := Returned(p, fs), FrameAllocator.Elems(p.cached);
    if fs <= p.held + p.free {
      assert q.free + cached + q.held + q.stranded == initial;
    } else {
      var f :| f in fs && f !in p.held + p.free;
      assert f in q.free;
    }
  }

  /** No table becomes the allocator's to give exactly if, besides, none of the frames freed is a table. */
  lemma ReturnedOwnsIff(m: seq<Page>, m2: seq<Page>, root: Frame, lo: nat, hi: nat, p: FrameAllocator.Pool, initial: set<nat>, fs: set<nat>)
    requires Unmapped(m, m2, root, lo, hi) && Owns(m, root, p, initial)
    ensures Owns(m2, root, Returned(p, fs), initial) <==>
      fs <= p.held + p.free && forall d :: 0 <= d < RECURSIVE && Pde(m, root, d).present ==> Pde(m, root, d).frame !in fs
  {
    ReturnedAccountedIff(p, initial, fs);
    var q := Returned(p, fs);
    if FrameAllocator.Accounted(q, initial) {
      assert p.held + p.free <= initial;
      forall d: nat | d < RECURSIVE && Pde(m, root, d).present
        ensures Kept(q, initial, Pde(m2, root, d).frame) <==> Pde(m, root, d).frame !in fs
      {
        assert Kept(p, initial, Pde(m, root, d).frame) && Pde(m2, root, d) == Pde(m, root, d);
      }
    }
  }

  lemma OnePageFrames(m: seq<Page>, root: Frame, held: set<nat>, lo: nat, hi: nat)
    requires |m| == CELLS && KERNEL_PAGE <= lo < hi <= WINDOW_PAGE && OwnPages(m, root, held, lo, hi)
    ensures OwnPages(m, root, held, lo + 1, hi) && OwnPage(m, root, held, lo)
    ensures var f := Walk(m, root, lo).value.frame as int;
      f !in BackingFrames(m, root, lo + 1, hi) && BackingFrames(m, root, lo, hi) == BackingFrames(m, root, lo + 1, hi) + {f}
    ensures lo - KERNEL_PAGE !in V2PFrames(lo + 1, hi) && V2PFrames(lo, hi) == V2PFrames(lo + 1, hi) + {lo - KERNEL_PAGE}
  {
    assert OwnPage(m, root, held, lo);
    var f: Frame := Walk(m, root, lo).value.frame;
    BackingIs(m, root, lo + 1, hi, f);
    forall vp: nat | lo < vp < hi ensures !Backs(m, root, f, vp) {
      assert OwnPage(m, root, held, vp) && Walk(m, root, lo) != Walk(m, root, vp);
    }
  }

  lemma {:induction false} BackingCount(m: seq<Page>, root: Frame, held: set<nat>, lo: nat, hi: nat)
    requires |m| == CELLS && KERNEL_PAGE <= lo <= hi <= WINDOW_PAGE && OwnPages(m, root, held, lo, hi)
    ensures |BackingFrames(m, root, lo, hi)| == hi - lo
    decreases hi - lo
  {
    if lo < hi {
      OnePageFrames(m, root, held, lo, hi);
      BackingCount(m, root, held, lo + 1, hi);
      OneLarger(BackingFrames(m, root, lo + 1, hi), Walk(m, root, lo).value.frame, BackingFrames(m, root, lo, hi));
    }
  }

  lemma {:induction false} PagesCount(lo: nat, hi: nat)
    requires lo <= hi
    ensures |Pages(lo, hi)| == hi - lo
    decreases hi
  {
    if lo < hi { PagesCount(lo, hi - 1); }
  }

  lemma FrameCounts(m: seq<Page>, root: Frame, held: set<nat>, lo: nat, hi: nat)
    requires |m| == CELLS && KERNEL_PAGE <= lo <= hi <= WINDOW_PAGE && OwnPages(m, root, held, lo, hi)
    ensures |BackingFrames(m, root, lo, hi)| == |V2PFrames(lo, hi)|
  {
    BackingCount(m, root, held, lo, hi);
    PagesCount(lo - KERNEL_PAGE, hi - KERNEL_PAGE);
  }

  lemma OneLarger(a: set<nat>, x: nat, b: set<nat>)
    requires x !in a && b == a + {x}
    ensures |b| == |a| + 1
  {
  }

  /** The frames behind the kernel's own pages are held, no tables, and not behind any of the pages below. */
  lemma OwnBacking(m: seq<Page>, root: Frame, held: set<nat>, from: nat, lo: nat, hi: nat, f: nat)
    requires |m| == CELLS && from <= lo <= hi <= ADDRESS_SPACE && OwnPages(m, root, held, from, hi) && f in BackingFrames(m, root, lo, hi)
    ensures f in held && f < FRAMES && NoTable(m, root, f) && !InUseAs(m, root, f, from, lo)
  {
    BackingIs(m, root, lo, hi, f);
    var wp :| lo <= wp < hi && Backs(m, root, f, wp);
    assert OwnPage(m, root, held, wp);
    forall vp: nat | from <= vp < lo ensures !Backs(m, root, f, vp) {
      assert OwnPage(m, root, held, vp) && Walk(m, root, vp) != Walk(m, root, wp);
    }
  }

  /** What a shrink should leave: sound accounts, the remaining pages still the kernel's own, and of the frames held
      exactly those gone that were behind the pages given up. */
  ghost predicate ShrinkSound(m: seq<Page>, m2: seq<Page>, root: Frame, p: FrameAllocator.Pool, q: FrameAllocator.Pool,
    initial: set<nat>, from: nat, lo: nat, hi: nat)
    requires |m| == CELLS && |m2| == CELLS && lo <= hi <= ADDRESS_SPACE
  {
    Owns(m2, root, q, initial) && OwnPages(m2, root, q.held, from, lo) && q.held == p.held - BackingFrames(m, root, lo, hi)
  }

  /** decrement_brk does that exactly when the frames it computes from the virtual addresses are the ones mapped there. */
  lemma ShrinkSoundIff(m: seq<Page>, m2: seq<Page>, root: Frame, p: FrameAllocator.Pool, initial: set<nat>, from: nat, lo: nat, hi: nat)
    requires Unmapped(m, m2, root, lo, hi) && KERNEL_PAGE <= from <= lo <= hi <= WINDOW_PAGE
    requires Owns(m, root, p, initial) && OwnPages(m, root, p.held, from, hi)
    ensures ShrinkSound(m, m2, root, p, Returned(p, V2PFrames(lo, hi)), initial, from, lo, hi)
            <==> V2PFrames(lo, hi) == BackingFrames(m, root, lo, hi)
  {
    var fs, us := V2PFrames(lo, hi), BackingFrames(m, root, lo, hi);
    forall f | f in us ensures f in p.held { OwnBacking(m, root, p.held, from, lo, hi, f); }
    ReturnedOwnsIff(m, m2, root, lo, hi, p, initial, fs);
    if fs == us {
      ShrinkKeeps(m, m2, root, p, initial, from, lo, hi);
    } else if Returned(p, fs).held == p.held - us {
      OwnPagesTail(m, root, p.held, from, lo, hi);
      FrameCounts(m, root, p.held, lo, hi);
      assert us <= fs;
      SameSize(us, fs);
    }
  }

  lemma OwnPagesTail(m: seq<Page>, root: Frame, held: set<nat>, from: nat, lo: nat, hi: nat)
    requires |m| == CELLS && from <= lo <= hi <= ADDRESS_SPACE && OwnPages(m, root, held, from, hi)
    ensures OwnPages(m, root, held, lo, hi)
  {
  }

  lemma SameSize(a: set<nat>, b: set<nat>)
    requires a <= b && |a| == |b|
    ensures a == b
  {
    assert b == a + (b - a) && |b - a| == 0;
  }

  lemma ShrinkKeeps(m: seq<Page>, m2: seq<Page>, root: Frame, p: FrameAllocator.Pool, initial: set<nat>, from: nat, lo: nat, hi: nat)
    requires Unmapped(m, m2, root, lo, hi) && KERNEL_PAGE <= from <= lo <= hi <= WINDOW_PAGE
    requires Owns(m, root, p, initial) && OwnPages(m, root, p.held, from, hi)
    ensures ShrinkSound(m, m2, root, p, Returned(p, BackingFrames(m, root, lo, hi)), initial, from, lo, hi)
  {
    var us := BackingFrames(m, root, lo, hi);
    forall f | f in us ensures f in p.held && f < FRAMES && NoTable(m, root, f) { OwnBacking(m, root, p.held, from, lo, hi, f); }
    ReturnedOwnsIff(m, m2, root, lo, hi, p, initial, us);
    assert forall d :: 0 <= d < RECURSIVE && Pde(m, root, d).present ==> Pde(m, root, d).frame !in us;
    var q := Returned(p, us);
    forall vp: nat | from <= vp < lo ensures OwnPage(m2, root, q.held, vp) && Walk(m2, root, vp) == Walk(m, root, vp) {
      assert OwnPage(m, root, p.held, vp);
      NotBacking(m, root, p.held, from, lo, hi, vp);
      SameNoTable(m, m2, root, lo, hi, Walk(m, root, vp).value.frame);
    }
  }

  lemma NotBacking(m: seq<Page>, root: Frame, held: set<nat>, from: nat, lo: nat, hi: nat, vp: nat)
    requires |m| == CELLS && from <= vp < lo <= hi <= ADDRESS_SPACE && OwnPages(m, root, held, from, hi) && Walk(m, root, vp).Some?
    ensures Walk(m, root, vp).value.frame as int !in BackingFrames(m, root, lo, hi)
  {
    var f: Frame := Walk(m, root, vp).value.frame;
    if f as int in BackingFrames(m, root, lo, hi) {
      OwnBacking(m, root, held, from, lo, hi, f);
      assert Backs(m, root, f, vp);
    }
  }

  lemma SameNoTable(m: seq<Page>, m2: seq<Page>, root: Frame, lo: nat, hi: nat, f: Frame)
    requires Unmapped(m, m2, root, lo, hi) && NoTable(m, root, f)
    ensures NoTable(m2, root, f)
  {
    forall d: nat | d < RECURSIVE && Pde(m2, root, d).present ensures Pde(m2, root, d).frame != f {
      assert Pde(m2, root, d) == Pde(m, root, d);
    }
  }

  /** Otherwise a frame is lost: it stays held, and none of the pages is on it any more. */
  lemma ShrinkLeaks(m: seq<Page>, m2: seq<Page>, root: Frame, p: FrameAllocator.Pool, from: nat, lo: nat, hi: nat)
    requires Unmapped(m, m2, root, lo, hi) && KERNEL_PAGE <= from <= lo <= hi <= WINDOW_PAGE
    requires OwnPages(m, root, p.held, from, hi) && V2PFrames(lo, hi) != BackingFrames(m, root, lo, hi)
    ensures exists f: Frame :: f in BackingFrames(m, root, lo, hi) && f in Returned(p, V2PFrames(lo, hi)).held && !InUseAs(m2, root, f, from, hi)
  {
    var fs, us := V2PFrames(lo, hi), BackingFrames(m, root, lo, hi);
    OwnPagesTail(m, root, p.held, from, lo, hi);
    FrameCounts(m, root, p.held, lo, hi);
    if us <= fs { SameSize(us, fs); }
    var g :| g in us && g !in fs;
    OwnBacking(m, root, p.held, from, lo, hi, g);
    var f: Frame := g;
    forall vp | from <= vp < hi ensures !Backs(m2, root, f, vp) {
      if vp < lo { assert !Backs(m, root, f, vp); }
    }
  }

  /** Page `vp` is on the frame at its own V2P address. */
  ghost predicate Direct(m: seq<Page>, root: Frame, vp: nat)
    requires |m| == CELLS && KERNEL_PAGE <= vp < ADDRESS_SPACE
  {
    Backs(m, root, vp - KERNEL_PAGE, vp)
  }

  ghost predicate SameFrames(m: seq<Page>, root: Frame, k: nat, hi: nat)
    requires |m| == CELLS && KERNEL_PAGE <= k && KERNEL_PAGE <= hi <= ADDRESS_SPACE
  {
    V2PFrames(k, hi) == BackingFrames(m, root, k, hi)
  }

  /** Shrinks by any number of pages are sound, up to a given one, exactly when every page is on that frame. */
  lemma {:induction false} ShrinksSoundIff(m: seq<Page>, root: Frame, held: set<nat>, lo: nat, hi: nat)
    requires |m| == CELLS && KERNEL_PAGE <= lo <= hi <= WINDOW_PAGE && OwnPages(m, root, held, lo, hi)
    ensures (forall k :: lo <= k <= hi ==> SameFrames(m, root, k, hi)) <==> (forall vp :: lo <= vp < hi ==> Direct(m, root, vp))
    decreases hi - lo
  {
    if lo < hi {
      ShrinksSoundIff(m, root, held, lo + 1, hi);
      OneMoreSame(m, root, held, lo, hi);
    }
  }

  lemma OneMoreSame(m: seq<Page>, root: Frame, held: set<nat>, lo: nat, hi: nat)
    requires |m| == CELLS && KERNEL_PAGE <= lo < hi <= WINDOW_PAGE && OwnPages(m, root, held, lo, hi)
    ensures OwnPages(m, root, held, lo + 1, hi)
    ensures SameFrames(m, root, lo + 1, hi) ==> (SameFrames(m, root, lo, hi) <==> Direct(m, root, lo))
  {
    OnePageFrames(m, root, held, lo, hi);
    var f, x, a := Walk(m, root, lo).value.frame as int, lo - KERNEL_PAGE, V2PFrames(lo + 1, hi);
    if f != x { assert x in a + {x} && (x in a + {f} ==> x in a); }
  }

  class HeapBreak {
    const mmu: Mmu
    const start: nat
    var brk: nat

    constructor (mmu: Mmu, start: nat, brk: nat)
      ensures this.mmu == mmu && this.start == start && this.brk == brk
    {
      this.mmu, this.start, this.brk := mmu, start, brk;
    }

    /** The break over the pages that the tables really map. */
    ghost function View(): Break
      requires mmu.mem.Length == CELLS
      reads this, mmu, mmu.mem
    {
      Break(start, brk, MappedPages(mmu.mem[..], mmu.root))
    }

    /** increment_brk for a break that stays below the window. In terms of the break and the mapped pages it is
        `Grow`, for as many pages as could be had; and of the pages from `lo` on, all up to the new break are the
        kernel's own, on frames of their own that are held and are no tables. It succeeds exactly if there are frames
        for the pages and for the tables they need; otherwise it maps as many pages as can be had. */
    method IncrementBrk(increment: nat, ghost initial: set<nat>, ghost lo: nat, ghost cur: nat, ghost top: nat)
      returns (r: int, ghost supply: nat, ghost vp: nat)
      requires Ready(mmu, initial) && Wf(View()) && 0 < increment && brk + increment + 4095 < 0xFFC0_0000
      requires cur == Ceil(brk) && top == Ceil(brk + increment)
      requires KERNEL_PAGE <= lo <= cur && OwnPages(mmu.mem[..], mmu.root, mmu.pmm.held, lo, cur)
      modifies `brk, mmu, mmu.mem, mmu.pmm, mmu.pmm.bitmap, mmu.pmm.preFrames
      ensures Ready(mmu, initial) && brk + 4095 < 0xFFC0_0000
      ensures OwnPages(mmu.mem[..], mmu.root, mmu.pmm.held, lo, Ceil(brk))
      ensures (View(), r != -1) == Grow(old(View()), increment, supply) && (r != -1 ==> r == old(brk))
      ensures vp == cur + supply && (r != -1 ==> Ceil(brk) == top) && (r != -1 <==> Enough(old(PurseOf(mmu)), cur, top))
      ensures if r != -1 then Paid(old(PurseOf(mmu)), PurseOf(mmu), cur, top) else Afforded(old(PurseOf(mmu)), cur, top, vp)
    {
      ghost var b := View();
      var newBreak := Wrap(brk + increment);
      var ok;
      ok, supply, vp := MapFor(increment, newBreak, initial, lo, b, cur, top);
      r := if ok then brk else -1;
      if ok {
        brk := newBreak;
      }
    }

    /** increment_brk up to line 61: the pages are mapped, and the break has not moved yet. */
    method MapFor(increment: nat, newBreak: nat, ghost initial: set<nat>, ghost lo: nat, ghost b: Break, ghost cur: nat, ghost top: nat)
      returns (ok: bool, ghost supply: nat, ghost vp: nat)
      requires Ready(mmu, initial) && Wf(b) && b == View() && brk + increment + 4095 < 0xFFC0_0000 && newBreak == Wrap(brk + increment)
      requires cur == Ceil(brk) && top == Ceil(brk + increment)
      requires KERNEL_PAGE <= lo <= cur && OwnPages(mmu.mem[..], mmu.root, mmu.pmm.held, lo, cur)
      modifies mmu, mmu.mem, mmu.pmm, mmu.pmm.bitmap, mmu.pmm.preFrames
      ensures Ready(mmu, initial) && (ok ==> newBreak + 4095 < 0xFFC0_0000 && Ceil(newBreak) == top)
      ensures OwnPages(mmu.mem[..], mmu.root, mmu.pmm.held, lo, Ceil(if ok then newBreak else brk))
      ensures (Break(start, if ok then newBreak else brk, MappedPages(mmu.mem[..], mmu.root)), ok) == Grow(b, increment, supply)
      ensures vp == cur + supply && (ok <==> Enough(old(PurseOf(mmu)), cur, top))
      ensures if ok then Paid(old(PurseOf(mmu)), PurseOf(mmu), cur, top) else Afforded(old(PurseOf(mmu)), cur, top, vp)
    {
      GrownBy(b, increment, 0);
      ok, vp := MapUpTo(PageUp(brk) / 4096, PageUp(newBreak) / 4096, initial, lo, cur, top);
      supply := vp - cur;
      ghost var c := Break(start, if ok then newBreak else brk, MappedPages(mmu.mem[..], mmu.root));
      GrowthDone(mmu.mem[..], mmu.root, mmu.pmm.held, lo, b, increment, supply, vp, ok, c);
    }

    method MapUpTo(from: nat, to: nat, ghost initial: set<nat>, ghost lo: nat, ghost cur: nat, ghost top: nat) returns (ok: bool, ghost vp: nat)
      requires Ready(mmu, initial) && KERNEL_PAGE <= lo <= cur <= top <= WINDOW_PAGE && from == cur && to == top
      requires OwnPages(mmu.mem[..], mmu.root, mmu.pmm.held, lo, cur)
      modifies mmu, mmu.mem, mmu.pmm, mmu.pmm.bitmap, mmu.pmm.preFrames
      ensures cur <= vp <= top && (ok <==> vp == top)
      ensures Progress(mmu, initial, lo, cur, vp, MappedPages(old(mmu.mem[..]), mmu.root))
      ensures ok <==> Enough(old(PurseOf(mmu)), cur, top)
      ensures if ok then Paid(old(PurseOf(mmu)), PurseOf(mmu), cur, top) else Afforded(old(PurseOf(mmu)), cur, top, vp)
    {
      ghost var purse := PurseOf(mmu);
      ok, vp := MapHeapPages(mmu, from, to, initial, lo);
      PaidOr(purse, PurseOf(mmu), from, cur, to, top, vp, ok);
    }

    /** decrement_brk, lines 80-82: the frame at the V2P address is freed, and the page unmapped. */
    method ReleasePage(pageAddr: nat, ghost vp: nat)
      requires mmu.mem.Length == CELLS && SpaceOk(mmu.View(), mmu.root) && mmu.pmm.Valid()
      requires pageAddr < WORD && pageAddr / 4096 == vp && KERNEL_PAGE + 256 <= vp < WINDOW_PAGE
      modifies mmu, mmu.mem, mmu.pmm, mmu.pmm.bitmap
      ensures SpaceOk(mmu.View(), mmu.root) && mmu.pmm.Valid()
      ensures Unmapped(old(mmu.mem[..]), mmu.mem[..], mmu.root, vp, vp + 1)
      ensures mmu.pmm.View() == Returned(old(mmu.pmm.View()), {vp - KERNEL_PAGE})
    {
      NoTwins(vp, vp);
      UnmapOne(mmu.mem[..], mmu.root, vp);
      PagingRuns.UnmapStepOk(mmu.View(), mmu.root, vp);
      mmu.pmm.FreePage(pageAddr - KERNEL_BASE);
      var _ := mmu.PageUnmap(pageAddr);
    }

    /** Half-way through the loop of decrement_brk, which started with the tables `m` and the frames `p`. */
    ghost predicate Shrinking(m: seq<Page>, p: FrameAllocator.Pool, lo: nat, hi: nat)
      requires KERNEL_PAGE <= lo && KERNEL_PAGE <= hi
      reads mmu, mmu.mem, mmu.pmm, mmu.pmm.bitmap, mmu.pmm.preFrames
    {
      && mmu.mem.Length == CELLS && SpaceOk(mmu.View(), mmu.root) && mmu.pmm.Valid()
      && Unmapped(m, mmu.mem[..], mmu.root, lo, hi) && mmu.pmm.View() == Returned(p, V2PFrames(lo, hi))
    }

    method StepDown(ghost m: seq<Page>, ghost p: FrameAllocator.Pool, ghost lo: nat, ghost hi: nat)
      requires KERNEL_PAGE + 256 < lo <= hi && lo <= WINDOW_PAGE && Shrinking(m, p, lo, hi) && brk / 4096 == lo && 4096 <= brk < WORD
      modifies `brk, mmu, mmu.mem, mmu.pmm, mmu.pmm.bitmap
      ensures brk == old(brk) - 4096 && Shrinking(m, p, lo - 1, hi)
    {
      ghost var m1 := mmu.mem[..];
      ReleasePage(brk - 4096, lo - 1);
      brk := brk - 4096;
      UnmappedMore(m, m1, mmu.mem[..], mmu.root, lo - 1, hi);
      assert V2PFrames(lo - 1, hi) == V2PFrames(lo, hi) + {lo - 1 - KERNEL_PAGE};
    }

    /** The loop of decrement_brk. */
    method StepDownTo(newBreak: nat)
      requires mmu.mem.Length == CELLS && SpaceOk(mmu.View(), mmu.root) && mmu.pmm.Valid()
      requires KERNEL_BASE + 0x10_0000 <= newBreak <= brk && brk + 4095 < 0xFFC0_0000
      modifies `brk, mmu, mmu.mem, mmu.pmm, mmu.pmm.bitmap
      ensures brk == old(brk) - (old(brk) - newBreak) / 4096 * 4096 && KERNEL_PAGE + 256 <= brk / 4096
      ensures Shrinking(old(mmu.mem[..]), old(mmu.pmm.View()), brk / 4096, old(brk) / 4096)
    {
      ghost var m, p, hi := mmu.mem[..], mmu.pmm.View(), brk / 4096;
      ghost var lo := hi;
      while brk - 4096 >= newBreak
        invariant brk == old(brk) - 4096 * (hi - lo) >= newBreak && brk / 4096 == lo <= hi
        invariant Shrinking(m, p, lo, hi)
      {
        StepDown(m, p, lo, hi);
        lo := lo - 1;
      }
      assert hi - lo == (old(brk) - newBreak) / 4096;
    }

    /** decrement_brk for a break below the window. In terms of the break and the mapped pages it is `Shrink`; what is
        freed are the frames at the V2P addresses of the pages unmapped. */
    method DecrementBrk(decrement: nat) returns (r: int)
      requires mmu.mem.Length == CELLS && SpaceOk(mmu.View(), mmu.root) && mmu.pmm.Valid()
      requires Wf(View()) && brk + 4095 < 0xFFC0_0000 && KERNEL_BASE + 0x10_0000 <= start && decrement <= WORD / 2
      modifies `brk, mmu, mmu.mem, mmu.pmm, mmu.pmm.bitmap
      ensures (View(), r != -1) == Shrink(old(View()), decrement) && (r != -1 ==> r == old(brk))
      ensures KERNEL_PAGE + 256 <= brk / 4096
      ensures Shrinking(old(mmu.mem[..]), old(mmu.pmm.View()), brk / 4096, old(brk) / 4096)
    {
      var oldBreak, newBreak := brk, brk - decrement;
      if newBreak < start {
        return -1;
      }
      StepDownTo(newBreak);
      MappedFewer(old(mmu.mem[..]), mmu.mem[..], mmu.root, brk / 4096, oldBreak / 4096);
      r := oldBreak;
    }
  }
}
