/** Mapping and unmapping pages through the recursive window, with the TLB between the code and the tables (vmm.c). */
module AddressSpace {
  import opened ByteStore
  import opened FrameBitmap
  import opened PageTables
  import FrameAllocator

  const ENOMEM := 12

  /** The tables in memory and the translations the processor has cached. */
  datatype Space = Space(mem: seq<Page>, tlb: map<nat, Mapping>)

  /** If page `vp` is cached, the cached translation is the one the tables give. */
  ghost predicate Agrees(m: seq<Page>, root: Frame, tlb: map<nat, Mapping>, vp: nat)
    requires |m| == CELLS && vp < ADDRESS_SPACE
  {
    vp in tlb ==> Walk(m, root, vp) == Some(tlb[vp])
  }

  /** Every cached translation agrees with the tables, except perhaps under slots 0 and 768. */
  ghost predicate Coherent(m: seq<Page>, root: Frame, tlb: map<nat, Mapping>)
    requires |m| == CELLS
  {
    forall vp :: 0 <= vp < ADDRESS_SPACE && !Low(vp / SLOTS) ==> Agrees(m, root, tlb, vp)
  }

  ghost predicate SpaceOk(s: Space, root: Frame) {
    |s.mem| == CELLS && TablesOk(s.mem, root) && Coherent(s.mem, root, s.tlb)
  }

  function SeenDirectory(tlb: map<nat, Mapping>, root: Frame): map<nat, Mapping> {
    tlb[Window(RECURSIVE) := Mapping(root, true, false)]
  }

  function SeenTable(tlb: map<nat, Mapping>, root: Frame, d: nat, table: Frame): map<nat, Mapping>
    requires d < RECURSIVE
  {
    SeenDirectory(tlb, root)[Window(d) := Mapping(table, true, false)]
  }

  /** vmm_page_map: new state and result; `table` is what pmm_alloc_page gave, if it was asked. */
  function MapStep(s: Space, root: Frame, phys: nat, vp: nat, flags: nat, table: Option<Frame>): (r: (Space, int))
    requires |s.mem| == CELLS && vp < ADDRESS_SPACE && vp / SLOTS < RECURSIVE && phys < WORD
  {
    var pde := Pde(s.mem, root, vp / SLOTS);
    if !pde.present && table.None? then (Space(s.mem, SeenDirectory(s.tlb, root)), ENOMEM) else
      var frame := if pde.present then pde.frame else table.value;
      (Space(MapMem(s.mem, root, phys, vp, flags, frame), SeenTable(s.tlb, root, vp / SLOTS, frame) - {vp}), 0)
  }

  function UnmapStep(s: Space, root: Frame, vp: nat): (r: (Space, int))
    requires |s.mem| == CELLS && vp < ADDRESS_SPACE && vp / SLOTS < RECURSIVE
  {
    var pde := Pde(s.mem, root, vp / SLOTS);
    if !pde.present then (Space(s.mem, SeenDirectory(s.tlb, root)), -1) else
      var tlb := SeenTable(s.tlb, root, vp / SLOTS, pde.frame);
      (Space(UnmapMem(s.mem, root, vp), if Pte(s.mem, root, vp).present then tlb - {vp} else tlb), 0)
  }

  lemma PutZero(m: seq<Page>, f: Frame, i: nat)
    requires |m| == CELLS && i < SLOTS
    ensures Put(ZeroPage(m, f, i), f, i, ZERO) == ZeroPage(m, f, i + 1)
  {
  }

  lemma ZeroNothing(m: seq<Page>, f: Frame)
    requires |m| == CELLS
    ensures ZeroPage(m, f, 0) == m
  {
  }

  /** Zeroing another frame leaves the directory, and so the window, alone. */
  lemma ZeroKeepsWindow(m: seq<Page>, root: Frame, d: nat, f: Frame, n: nat)
    requires |m| == CELLS && d < SLOTS && n <= SLOTS && f != root && Recursive(m, root)
    ensures Recursive(ZeroPage(m, f, n), root) && Pde(ZeroPage(m, f, n), root, d) == Pde(m, root, d)
  {
    ZeroAt(m, f, n, root, RECURSIVE);
    ZeroAt(m, f, n, root, d);
  }

  lemma PutKeepsWindow(m: seq<Page>, root: Frame, d: nat, p: Page)
    requires |m| == CELLS && d < RECURSIVE && Recursive(m, root)
    ensures Recursive(Put(m, root, d, p), root) && Pde(Put(m, root, d, p), root, d) == p
  {
    PutAt(m, root, d, p, root, RECURSIVE);
    PutAt(m, root, d, p, root, d);
  }

  /** Every table frame is held from the frame allocator or was never its to give: a page it hands out is no table. */
  ghost predicate Owns(m: seq<Page>, root: Frame, p: FrameAllocator.Pool, initial: set<nat>)
    requires |m| == CELLS
  {
    && FrameAllocator.Accounted(p, initial) && (forall f :: f in initial ==> 256 <= f < FRAMES)
    && root !in initial
    && forall d :: 0 <= d < RECURSIVE && Pde(m, root, d).present ==> Kept(p, initial, Pde(m, root, d).frame)
  }

  ghost predicate Kept(p: FrameAllocator.Pool, initial: set<nat>, f: nat) {
    f in p.held || f !in initial
  }

  /** What pmm_alloc_page returned, as an optional frame number. */
  function Given(address: nat): Option<Frame>
    requires address / 0x1000 < FRAMES
  {
    if address == 0 then None else Some(address / 0x1000)
  }

  /** A page newly handed out is no table, and may become one. */
  lemma AllocOwns(m: seq<Page>, root: Frame, p: FrameAllocator.Pool, initial: set<nat>, address: nat, q: FrameAllocator.Pool)
    requires |m| == CELLS && Owns(m, root, p, initial) && FrameAllocator.AllocStep(p, q, address)
    ensures address / 0x1000 < FRAMES && Owns(m, root, q, initial)
    ensures address != 0 ==> NoTable(m, root, address / 0x1000) && Kept(q, initial, address / 0x1000)
  {
    FrameAllocator.AllocSound(p, initial, address, q);
    forall d | 0 <= d < RECURSIVE && Pde(m, root, d).present
      ensures Kept(q, initial, Pde(m, root, d).frame) && (address != 0 ==> Pde(m, root, d).frame != address / 0x1000)
    {
      assert Kept(p, initial, Pde(m, root, d).frame);
    }
  }

  /** What the frame allocator gives for a table is in use nowhere as one. */
  lemma AskedOwns(m: seq<Page>, root: Frame, vp: nat, p: FrameAllocator.Pool, initial: set<nat>, q: FrameAllocator.Pool, table: Option<Frame>)
    requires |m| == CELLS && vp < ADDRESS_SPACE && Owns(m, root, p, initial) && TableAsked(m, root, vp, p, q, table)
    ensures Owns(m, root, q, initial)
    ensures table.Some? ==> TableFits(m, root, vp, table.value) && Kept(q, initial, table.value)
  {
    if !Pde(m, root, vp / SLOTS).present {
      var address: nat :| TableGiven(p, address, q, table);
      AllocOwns(m, root, p, initial, address, q);
    }
  }

  lemma MapOwns(m: seq<Page>, root: Frame, p: FrameAllocator.Pool, initial: set<nat>, phys: nat, vp: nat, flags: nat, table: Frame)
    requires |m| == CELLS && vp < ADDRESS_SPACE && vp / SLOTS < RECURSIVE && phys < WORD
    requires TablesOk(m, root) && TableFits(m, root, vp, table) && Owns(m, root, p, initial)
    requires !Pde(m, root, vp / SLOTS).present ==> Kept(p, initial, table)
    ensures Owns(MapMem(m, root, phys, vp, flags, table), root, p, initial)
  {
    PreparedOk(m, root, vp, table);
    var m1 := Prepared(m, root, vp, table);
    var m2 := MapMem(m, root, phys, vp, flags, table);
    assert SlotOk(m1, root, vp / SLOTS);
    forall d: nat | d < RECURSIVE && Pde(m2, root, d).present ensures Kept(p, initial, Pde(m2, root, d).frame) {
      PutPtePde(m1, root, vp / SLOTS, vp % SLOTS, NewPte(Pte(m1, root, vp), phys, flags), d);
      if !Pde(m, root, vp / SLOTS).present { NewTablePde(m, root, vp / SLOTS, table, d); }
    }
  }

  /** pmm_alloc_page is asked for a page exactly if the slot of `vp` has no table. */
  ghost predicate TableAsked(m: seq<Page>, root: Frame, vp: nat, p: FrameAllocator.Pool, q: FrameAllocator.Pool, table: Option<Frame>)
    requires |m| == CELLS && vp < ADDRESS_SPACE
  {
    if Pde(m, root, vp / SLOTS).present then p == q && table == None
    else exists address: nat :: TableGiven(p, address, q, table)
  }

  ghost predicate TableGiven(p: FrameAllocator.Pool, address: nat, q: FrameAllocator.Pool, table: Option<Frame>) {
    FrameAllocator.AllocStep(p, q, address) && address / 0x1000 < FRAMES && table == Given(address)
  }

  /** A look at the directory caches only what the tables say. */
  lemma SeenOk(s: Space, root: Frame)
    requires SpaceOk(s, root)
    ensures SpaceOk(Space(s.mem, SeenDirectory(s.tlb, root)), root)
  {
    var tlb := SeenDirectory(s.tlb, root);
    WindowWalk(s.mem, root, RECURSIVE);
    forall vp: nat | vp < ADDRESS_SPACE && !Low(vp / SLOTS) ensures Agrees(s.mem, root, tlb, vp) {
      assert Agrees(s.mem, root, s.tlb, vp);
    }
  }

  lemma MapStepSeen(s: Space, root: Frame, phys: nat, vp: nat, flags: nat, table: Option<Frame>)
    requires |s.mem| == CELLS && vp < ADDRESS_SPACE && vp / SLOTS < RECURSIVE && phys < WORD
    ensures MapStep(Space(s.mem, SeenDirectory(s.tlb, root)), root, phys, vp, flags, table)
         == MapStep(s, root, phys, vp, flags, table)
  {
    assert SeenDirectory(SeenDirectory(s.tlb, root), root) == SeenDirectory(s.tlb, root);
  }

  class Mmu {
    const mem: array<Page>
    const root: Frame
    const pmm: FrameAllocator.FrameSource
    var tlb: map<nat, Mapping>

    /** Loading cr3 leaves the TLB empty. */
    constructor (mem: array<Page>, root: Frame, pmm: FrameAllocator.FrameSource)
      ensures this.mem == mem && this.root == root && this.pmm == pmm && View() == Space(mem[..], map[])
    {
      this.mem, this.root, this.pmm, tlb := mem, root, pmm, map[];
    }

    ghost function View(): Space
      reads this, mem
    {
      Space(mem[..], tlb)
    }

    /** The memory cell an access at `a` reaches: the TLB answers if it can, else the tables are walked and the
        result is cached. */
    method Access(a: nat) returns (cell: nat)
      requires mem.Length == CELLS && a < WORD
      requires Walk(mem[..], root, VPage(a)).Some? && Agrees(mem[..], root, tlb, VPage(a))
      modifies `tlb
      ensures cell == Target(a, Walk(mem[..], root, VPage(a)).value.frame)
      ensures tlb == old(tlb)[VPage(a) := Walk(mem[..], root, VPage(a)).value]
    {
      var vp := VPage(a);
      if vp !in tlb {
        var pde := mem[Cell(root, vp / SLOTS)];
        var pte := mem[Cell(pde.frame, vp % SLOTS)];
        tlb := tlb[vp := Mapping(pte.frame, pde.rw && pte.rw, pde.user && pte.user)];
      }
      cell := Target(a, tlb[vp].frame);
    }

    method Load(a: nat) returns (p: Page)
      requires mem.Length == CELLS && a < WORD
      requires Walk(mem[..], root, VPage(a)).Some? && Agrees(mem[..], root, tlb, VPage(a))
      modifies `tlb
      ensures p == mem[Target(a, Walk(mem[..], root, VPage(a)).value.frame)]
      ensures tlb == old(tlb)[VPage(a) := Walk(mem[..], root, VPage(a)).value]
    {
      var cell := Access(a);
      p := mem[cell];
    }

    method Store(a: nat, p: Page)
      requires mem.Length == CELLS && a < WORD
      requires Walk(mem[..], root, VPage(a)).Some? && Agrees(mem[..], root, tlb, VPage(a))
      requires Walk(mem[..], root, VPage(a)).value.rw
      modifies `tlb, mem
      ensures mem[..] == old(mem[..])[Target(a, Walk(old(mem[..]), root, VPage(a)).value.frame) := p]
      ensures tlb == old(tlb)[VPage(a) := Walk(old(mem[..]), root, VPage(a)).value]
    {
      var cell := Access(a);
      mem[cell] := p;
    }

    method Flush(a: nat)
      requires a < WORD
      modifies `tlb
      ensures tlb == old(tlb) - {VPage(a)}
    {
      tlb := tlb - {VPage(a)};
    }

    /** memset of the new table through its window page. */
    method ClearTable(start: nat, ghost d: nat, ghost table: Frame)
      requires mem.Length == CELLS && d < RECURSIVE && start == Window(d) * 0x1000 && table != root
      requires Recursive(mem[..], root) && Pde(mem[..], root, d).present && Pde(mem[..], root, d).rw
      requires Pde(mem[..], root, d).frame == table && Window(d) !in tlb
      modifies `tlb, mem
      ensures mem[..] == ZeroPage(old(mem[..]), table, SLOTS)
      ensures tlb == old(tlb)[Window(d) := Mapping(table, true, false)]
    {
      ghost var m := mem[..];
      ZeroNothing(m, table);
      for i := 0 to SLOTS
        invariant mem[..] == ZeroPage(m, table, i)
        invariant tlb == if i == 0 then old(tlb) else old(tlb)[Window(d) := Mapping(table, true, false)]
      {
        ZeroKeepsWindow(m, root, d, table, i);
        WindowWalk(mem[..], root, d);
        Store(start + 4 * i, ZERO);
        PutZero(m, table, i);
      }
    }

    /** The read-modify-write of a table entry through the window. */
    method SetPte(virt: nat, p: Page)
      requires mem.Length == CELLS && virt < WORD && VPage(virt) / SLOTS < RECURSIVE
      requires Recursive(mem[..], root) && Pde(mem[..], root, VPage(virt) / SLOTS).present
      requires Pde(mem[..], root, VPage(virt) / SLOTS).rw && Agrees(mem[..], root, tlb, Window(VPage(virt) / SLOTS))
      modifies `tlb, mem
      ensures mem[..] == PutPte(old(mem[..]), root, VPage(virt) / SLOTS, VPage(virt) % SLOTS, p)
      ensures tlb == old(tlb)[Window(VPage(virt) / SLOTS) :=
        Mapping(Pde(old(mem[..]), root, VPage(virt) / SLOTS).frame, true, false)]
    {
      PtePtrSplits(virt);
      PteWindow(mem[..], root, virt);
      Store(PtePtr(virt), p);
    }

    method GetPte(virt: nat) returns (p: Page)
      requires mem.Length == CELLS && virt < WORD && VPage(virt) / SLOTS < RECURSIVE
      requires Recursive(mem[..], root) && Pde(mem[..], root, VPage(virt) / SLOTS).present
      requires Pde(mem[..], root, VPage(virt) / SLOTS).rw && Agrees(mem[..], root, tlb, Window(VPage(virt) / SLOTS))
      modifies `tlb
      ensures p == Pte(mem[..], root, VPage(virt))
      ensures tlb == old(tlb)[Window(VPage(virt) / SLOTS) :=
        Mapping(Pde(mem[..], root, VPage(virt) / SLOTS).frame, true, false)]
    {
      PtePtrSplits(virt);
      PteWindow(mem[..], root, virt);
      p := Load(PtePtr(virt));
    }

    method GetPde(virt: nat) returns (p: Page)
      requires mem.Length == CELLS && virt < WORD && Recursive(mem[..], root)
      requires Agrees(mem[..], root, tlb, Window(RECURSIVE))
      modifies `tlb
      ensures p == Pde(mem[..], root, VPage(virt) / SLOTS) && tlb == SeenDirectory(old(tlb), root)
    {
      PdePtrSplits(virt);
      PdeWindow(mem[..], root, virt);
      p := Load(PdePtr(virt));
    }

    /** The directory entry is filled in, the window page flushed, and the new table cleared through it. */
    method CreateTable(virt: nat, frame: Frame)
      requires mem.Length == CELLS && virt < WORD && VPage(virt) / SLOTS < RECURSIVE && frame != root
      requires Recursive(mem[..], root) && Window(RECURSIVE) in tlb
      requires Agrees(mem[..], root, tlb, Window(RECURSIVE))
      modifies `tlb, mem
      ensures mem[..] == NewTable(old(mem[..]), root, VPage(virt) / SLOTS, frame)
      ensures tlb == (old(tlb) - {Window(VPage(virt) / SLOTS)})[Window(VPage(virt) / SLOTS) := Mapping(frame, true, false)]
    {
      ghost var d := VPage(virt) / SLOTS;
      PdePtrSplits(virt);
      PdeWindow(mem[..], root, virt);
      var e := Load(PdePtr(virt));
      Store(PdePtr(virt), NewPde(e, frame));
      PutKeepsWindow(old(mem[..]), root, d, NewPde(e, frame));
      PtePtrSplits(virt);
      var start := PtePtr(virt) / 0x1000 * 0x1000;
      Flush(start);
      ClearTable(start, d, frame);
    }

    method WriteMapping(phys: nat, virt: nat, flags: nat)
      requires mem.Length == CELLS && phys < WORD && virt < WORD && VPage(virt) / SLOTS < RECURSIVE
      requires Recursive(mem[..], root) && Pde(mem[..], root, VPage(virt) / SLOTS).present
      requires Pde(mem[..], root, VPage(virt) / SLOTS).rw && Agrees(mem[..], root, tlb, Window(VPage(virt) / SLOTS))
      modifies `tlb, mem
      ensures mem[..] == PutPte(old(mem[..]), root, VPage(virt) / SLOTS, VPage(virt) % SLOTS,
        NewPte(Pte(old(mem[..]), root, VPage(virt)), phys, flags))
      ensures tlb == old(tlb)[Window(VPage(virt) / SLOTS) :=
        Mapping(Pde(old(mem[..]), root, VPage(virt) / SLOTS).frame, true, false)] - {VPage(virt)}
    {
      var pte := GetPte(virt);
      SetPte(virt, NewPte(pte, phys, flags));
      Flush(virt);
    }

    /** The slot has a table: the second half of vmm_page_map runs. */
    method MapInTable(phys: nat, virt: nat, flags: nat)
      requires mem.Length == CELLS && SpaceOk(View(), root) && phys < WORD && virt < WORD && VPage(virt) / SLOTS < RECURSIVE
      requires Pde(mem[..], root, VPage(virt) / SLOTS).present && Window(RECURSIVE) in tlb
      modifies `tlb, mem
      ensures View() == MapStep(old(View()), root, phys, VPage(virt), flags, None).0
    {
      ghost var d, t := VPage(virt) / SLOTS, tlb;
      assert SlotOk(mem[..], root, d) && Agrees(mem[..], root, tlb, Window(d)) && Agrees(mem[..], root, tlb, Window(RECURSIVE));
      WindowWalk(mem[..], root, RECURSIVE);
      WriteMapping(phys, virt, flags);
      assert t == SeenDirectory(t, root);
    }

    /** The slot has no table: `frame` becomes its table and the mapping is written into it. */
    method MapInNewTable(phys: nat, virt: nat, flags: nat, frame: Frame)
      requires mem.Length == CELLS && SpaceOk(View(), root) && phys < WORD && virt < WORD && VPage(virt) / SLOTS < RECURSIVE
      requires !Pde(mem[..], root, VPage(virt) / SLOTS).present && frame != root && Window(RECURSIVE) in tlb
      modifies `tlb, mem
      ensures View() == MapStep(old(View()), root, phys, VPage(virt), flags, Some(frame)).0
    {
      ghost var s, d, vp := View(), VPage(virt) / SLOTS, VPage(virt);
      assert Agrees(s.mem, root, tlb, Window(RECURSIVE));
      WindowWalk(s.mem, root, RECURSIVE);
      CreateTable(virt, frame);
      NewTablePde(s.mem, root, d, frame, d);
      NewTablePde(s.mem, root, d, frame, RECURSIVE);
      WindowWalk(mem[..], root, d);
      WriteMapping(phys, virt, flags);
      assert tlb == SeenTable(s.tlb, root, d, frame) - {vp};
    }

    /** A page from the frame allocator, to serve as the table of a slot that has none. */
    method AskForTable(ghost m: seq<Page>, ghost vp: nat, ghost initial: set<nat>) returns (page: nat, ghost table: Option<Frame>)
      requires |m| == CELLS && vp < ADDRESS_SPACE && !Pde(m, root, vp / SLOTS).present
      requires pmm.Valid() && Owns(m, root, pmm.View(), initial)
      modifies pmm, pmm.bitmap, pmm.preFrames
      ensures pmm.Valid() && Owns(m, root, pmm.View(), initial)
      ensures page / 0x1000 < FRAMES && table == Given(page)
      ensures table.Some? ==> NoTable(m, root, table.value) && Kept(pmm.View(), initial, table.value)
      ensures TableAsked(m, root, vp, old(pmm.View()), pmm.View(), table)
    {
      page := pmm.AllocPage();
      AllocOwns(m, root, old(pmm.View()), initial, page, pmm.View());
      table := Given(page);
      assert TableGiven(old(pmm.View()), page, pmm.View(), table);
    }

    method PageMap(phys: nat, virt: nat, flags: nat, ghost initial: set<nat>) returns (r: int, ghost table: Option<Frame>)
      requires mem.Length == CELLS && SpaceOk(View(), root) && phys < WORD && virt < WORD && VPage(virt) / SLOTS < RECURSIVE
      requires pmm.Valid() && Owns(mem[..], root, pmm.View(), initial)
      modifies `tlb, mem, pmm, pmm.bitmap, pmm.preFrames
      ensures pmm.Valid() && Owns(mem[..], root, pmm.View(), initial)
      ensures (View(), r) == MapStep(old(View()), root, phys, VPage(virt), flags, table)
      ensures TableAsked(old(mem[..]), root, VPage(virt), old(pmm.View()), pmm.View(), table)
    {
      ghost var s, vp := View(), VPage(virt);
      assert Agrees(s.mem, root, s.tlb, Window(RECURSIVE));
      var pde := GetPde(virt);
      SeenOk(s, root);
      if pde.present {
        table := None;
        MapStepSeen(s, root, phys, vp, flags, table);
        MapOwns(s.mem, root, pmm.View(), initial, phys, vp, flags, pde.frame);
        MapInTable(phys, virt, flags);
        return 0, table;
      }
      var page;
      page, table := AskForTable(s.mem, vp, initial);
      if page == 0 {
        return ENOMEM, table;
      }
      MapStepSeen(s, root, phys, vp, flags, table);
      MapOwns(s.mem, root, pmm.View(), initial, phys, vp, flags, page / 0x1000);
      MapInNewTable(phys, virt, flags, page / 0x1000);
      r := 0;
    }

    method PageUnmap(virt: nat) returns (r: int)
      requires mem.Length == CELLS && SpaceOk(View(), root) && virt < WORD && VPage(virt) / SLOTS < RECURSIVE
      modifies `tlb, mem
      ensures (View(), r) == UnmapStep(old(View()), root, VPage(virt))
    {
      ghost var s, vp := View(), VPage(virt);
      ghost var d := vp / SLOTS;
      assert SlotOk(s.mem, root, d) && Agrees(s.mem, root, s.tlb, Window(d)) && Agrees(s.mem, root, s.tlb, Window(RECURSIVE));
      var pde := GetPde(virt);
      if !pde.present {
        return -1;
      }
      var pte := GetPte(virt);
      if !pte.present {
        return 0;
      }
      WindowWalk(s.mem, root, d);
      SetPte(virt, pte.(present := false, frame := 0));
      Flush(virt);
      r := 0;
      assert tlb == SeenTable(s.tlb, root, d, pde.frame) - {vp};
    }
  }
}
