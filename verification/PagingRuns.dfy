/** Every run of map and unmap calls, with translations entering and leaving the TLB in between: the tables refine a
    flat page map and the TLB agrees with them. */
module PagingRuns {
  import opened ByteStore
  import opened FrameBitmap
  import opened PageTables
  import opened AddressSpace
  import FrameAllocator

  datatype Op =
    | Map(phys: nat, vp: nat, flags: nat, table: Option<Frame>)
    | Unmap(vp: nat)
    | Fill(vp: nat)
    | Evict(vp: nat)

  /** Calls outside the window slot; the processor caches only valid walks. */
  ghost predicate Possible(s: Space, root: Frame, op: Op)
    requires |s.mem| == CELLS
  {
    op.vp < ADDRESS_SPACE &&
    match op
    case Map(phys, vp, _, _) => phys < WORD && vp / SLOTS < RECURSIVE
    case Unmap(vp) => vp / SLOTS < RECURSIVE
    case Fill(vp) => Walk(s.mem, root, vp).Some?
    case Evict(_) => true
  }

  /** And a frame handed in as a table is in use nowhere. */
  ghost predicate Enabled(s: Space, root: Frame, op: Op)
    requires |s.mem| == CELLS
  {
    Possible(s, root, op) && (op.Map? && op.table.Some? ==> TableFits(s.mem, root, op.vp, op.table.value))
  }

  ghost function Next(s: Space, root: Frame, op: Op): (r: (Space, int))
    requires |s.mem| == CELLS && Possible(s, root, op)
    ensures |r.0.mem| == CELLS
  {
    match op
    case Map(phys, vp, flags, table) => MapStep(s, root, phys, vp, flags, table)
    case Unmap(vp) => UnmapStep(s, root, vp)
    case Fill(vp) => (s.(tlb := s.tlb[vp := Walk(s.mem, root, vp).value]), 0)
    case Evict(vp) => (s.(tlb := s.tlb - {vp}), 0)
  }

  // ---------------------------------------------------------------- the TLB

  /** All cached translations are current. */
  ghost predicate Exact(s: Space, root: Frame)
    requires |s.mem| == CELLS
  {
    forall vp :: 0 <= vp < ADDRESS_SPACE ==> Agrees(s.mem, root, s.tlb, vp)
  }

  /** Page `wp` agrees after a successful map, provided it did before and is not the unflushed twin. */
  lemma MapAgrees(s: Space, root: Frame, phys: nat, vp: nat, flags: nat, frame: Frame, wp: nat)
    requires |s.mem| == CELLS && vp < ADDRESS_SPACE && vp / SLOTS < RECURSIVE && phys < WORD && wp < ADDRESS_SPACE
    requires TablesOk(s.mem, root) && TableFits(s.mem, root, vp, frame)
    requires Pde(s.mem, root, vp / SLOTS).present ==> frame == Pde(s.mem, root, vp / SLOTS).frame
    requires Agrees(s.mem, root, s.tlb, wp)
    ensures wp / SLOTS == RECURSIVE || !Twins(wp, vp) || wp == vp ==>
      Agrees(MapMem(s.mem, root, phys, vp, flags, frame), root, SeenTable(s.tlb, root, vp / SLOTS, frame) - {vp}, wp)
    ensures wp / SLOTS != RECURSIVE && Twins(wp, vp) && wp != vp ==>
      (Agrees(MapMem(s.mem, root, phys, vp, flags, frame), root, SeenTable(s.tlb, root, vp / SLOTS, frame) - {vp}, wp) <==>
       wp !in s.tlb || Walk(s.mem, root, wp) == Some(Mapped(phys, flags, vp / SLOTS)))
  {
    MapWalk(s.mem, root, phys, vp, flags, frame, wp);
    WindowWalk(s.mem, root, RECURSIVE);
    WindowWalk(s.mem, root, vp / SLOTS);
    assert SlotOk(s.mem, root, vp / SLOTS);
  }

  lemma UnmapAgrees(s: Space, root: Frame, vp: nat, wp: nat)
    requires |s.mem| == CELLS && vp < ADDRESS_SPACE && vp / SLOTS < RECURSIVE && wp < ADDRESS_SPACE
    requires TablesOk(s.mem, root) && Agrees(s.mem, root, s.tlb, wp)
    ensures wp / SLOTS == RECURSIVE || !Twins(wp, vp) || wp == vp || wp !in s.tlb ==>
      Agrees(UnmapStep(s, root, vp).0.mem, root, UnmapStep(s, root, vp).0.tlb, wp)
    ensures wp / SLOTS != RECURSIVE && Twins(wp, vp) && wp != vp && wp in s.tlb ==>
      !Agrees(UnmapStep(s, root, vp).0.mem, root, UnmapStep(s, root, vp).0.tlb, wp)
  {
    UnmapWalk(s.mem, root, vp, wp);
    WindowWalk(s.mem, root, RECURSIVE);
    WindowWalk(s.mem, root, vp / SLOTS);
    assert SlotOk(s.mem, root, vp / SLOTS);
    if wp / SLOTS < RECURSIVE { assert SlotOk(s.mem, root, wp / SLOTS); }
  }

  lemma MapStepOk(s: Space, root: Frame, phys: nat, vp: nat, flags: nat, table: Option<Frame>)
    requires SpaceOk(s, root) && Enabled(s, root, Map(phys, vp, flags, table))
    ensures SpaceOk(MapStep(s, root, phys, vp, flags, table).0, root)
    ensures Ordinary(vp / SLOTS) && Exact(s, root) ==> Exact(MapStep(s, root, phys, vp, flags, table).0, root)
  {
    var pde, s2 := Pde(s.mem, root, vp / SLOTS), MapStep(s, root, phys, vp, flags, table).0;
    if !pde.present && table.None? {
      SeenOk(s, root);
      SeenExact(s, root);
    } else {
      var frame := if pde.present then pde.frame else table.value;
      MapOk(s.mem, root, phys, vp, flags, frame);
      forall wp: nat | wp < ADDRESS_SPACE && Agrees(s.mem, root, s.tlb, wp) && (wp == vp || !Low(wp / SLOTS) || !Low(vp / SLOTS))
        ensures Agrees(s2.mem, root, s2.tlb, wp)
      {
        MapAgrees(s, root, phys, vp, flags, frame, wp);
      }
    }
  }

  lemma SeenExact(s: Space, root: Frame)
    requires SpaceOk(s, root)
    ensures Exact(s, root) ==> Exact(Space(s.mem, SeenDirectory(s.tlb, root)), root)
  {
    WindowWalk(s.mem, root, RECURSIVE);
    if Exact(s, root) {
      forall vp: nat | vp < ADDRESS_SPACE ensures Agrees(s.mem, root, SeenDirectory(s.tlb, root), vp) {
        assert Agrees(s.mem, root, s.tlb, vp);
      }
    }
  }

  lemma UnmapStepOk(s: Space, root: Frame, vp: nat)
    requires SpaceOk(s, root) && Enabled(s, root, Unmap(vp))
    ensures SpaceOk(UnmapStep(s, root, vp).0, root)
    ensures Ordinary(vp / SLOTS) && Exact(s, root) ==> Exact(UnmapStep(s, root, vp).0, root)
  {
    var s2 := UnmapStep(s, root, vp).0;
    UnmapOk(s.mem, root, vp);
    forall wp: nat | wp < ADDRESS_SPACE && Agrees(s.mem, root, s.tlb, wp) && (wp == vp || !Low(wp / SLOTS) || !Low(vp / SLOTS))
      ensures Agrees(s2.mem, root, s2.tlb, wp)
    {
      UnmapAgrees(s, root, vp, wp);
    }
  }

  lemma StepOk(s: Space, root: Frame, op: Op)
    requires SpaceOk(s, root) && Enabled(s, root, op)
    ensures SpaceOk(Next(s, root, op).0, root)
    ensures Exact(s, root) && (op.Map? || op.Unmap? ==> Ordinary(op.vp / SLOTS)) ==> Exact(Next(s, root, op).0, root)
  {
    match op
    case Map(phys, vp, flags, table) => MapStepOk(s, root, phys, vp, flags, table);
    case Unmap(vp) => UnmapStepOk(s, root, vp);
    case Fill(_) | Evict(_) =>
      var s2 := Next(s, root, op).0;
      forall wp: nat | wp < ADDRESS_SPACE && Agrees(s.mem, root, s.tlb, wp) ensures Agrees(s2.mem, root, s2.tlb, wp) {}
  }

  /** The page in the other of slots 0 and 768 that shares `vp`'s table entry. */
  function Twin(vp: nat): nat
    requires vp < ADDRESS_SPACE && Low(vp / SLOTS)
  {
    if vp / SLOTS == 0 then vp + KERNEL_SLOT * SLOTS else vp - KERNEL_SLOT * SLOTS
  }

  lemma TwinOnly(vp: nat, wp: nat)
    requires vp < ADDRESS_SPACE && wp < ADDRESS_SPACE && Low(vp / SLOTS)
    ensures Twin(vp) < ADDRESS_SPACE && Low(Twin(vp) / SLOTS) && Twin(vp) != vp
    ensures Twins(wp, vp) <==> wp == vp || wp == Twin(vp)
  {
  }

  /** Under slots 0 and 768 only the page itself is flushed, so the TLB stays exact iff the twin page was not cached
      or its translation is the same as before. */
  lemma TwinStaleIff(s: Space, root: Frame, phys: nat, vp: nat, flags: nat, table: Option<Frame>)
    requires SpaceOk(s, root) && Exact(s, root) && Enabled(s, root, Map(phys, vp, flags, table)) && Low(vp / SLOTS)
    ensures Exact(MapStep(s, root, phys, vp, flags, table).0, root) <==>
      Twin(vp) !in s.tlb || Walk(s.mem, root, Twin(vp)) == Some(Mapped(phys, flags, vp / SLOTS))
  {
    var pde, s2, twin := Pde(s.mem, root, vp / SLOTS), MapStep(s, root, phys, vp, flags, table).0, Twin(vp);
    assert SlotOk(s.mem, root, vp / SLOTS);
    TwinOnly(vp, twin);
    assert Agrees(s.mem, root, s.tlb, twin);
    MapAgrees(s, root, phys, vp, flags, pde.frame, twin);
    if Agrees(s2.mem, root, s2.tlb, twin) {
      forall wp: nat | wp < ADDRESS_SPACE ensures Agrees(s2.mem, root, s2.tlb, wp) {
        assert Agrees(s.mem, root, s.tlb, wp);
        TwinOnly(vp, wp);
        if wp != twin { MapAgrees(s, root, phys, vp, flags, pde.frame, wp); }
      }
    }
  }

  /** Unmapping there leaves the TLB exact iff the twin page was not cached. */
  lemma UnmapTwinStaleIff(s: Space, root: Frame, vp: nat)
    requires SpaceOk(s, root) && Exact(s, root) && Enabled(s, root, Unmap(vp)) && Low(vp / SLOTS)
    ensures Exact(UnmapStep(s, root, vp).0, root) <==> Twin(vp) !in s.tlb
  {
    var s2, twin := UnmapStep(s, root, vp).0, Twin(vp);
    TwinOnly(vp, twin);
    assert Agrees(s.mem, root, s.tlb, twin);
    UnmapAgrees(s, root, vp, twin);
    if twin !in s.tlb {
      forall wp: nat | wp < ADDRESS_SPACE ensures Agrees(s2.mem, root, s2.tlb, wp) {
        assert Agrees(s.mem, root, s.tlb, wp);
        TwinOnly(vp, wp);
        UnmapAgrees(s, root, vp, wp);
      }
    }
  }

  /** Seen from the tables alone: whatever the TLB holds, mapping page `vp` there is safe iff its twin is not mapped
      or is mapped as `vp` will be. */
  lemma TwinSafeIff(m: seq<Page>, root: Frame, phys: nat, vp: nat, flags: nat, table: Option<Frame>)
    requires |m| == CELLS && TablesOk(m, root) && Enabled(Space(m, map[]), root, Map(phys, vp, flags, table)) && Low(vp / SLOTS)
    ensures (forall tlb :: Exact(Space(m, tlb), root) ==> Exact(MapStep(Space(m, tlb), root, phys, vp, flags, table).0, root))
            <==> (Walk(m, root, Twin(vp)).None? || Walk(m, root, Twin(vp)) == Some(Mapped(phys, flags, vp / SLOTS)))
  {
    forall tlb: map<nat, Mapping> | Exact(Space(m, tlb), root)
      ensures Exact(MapStep(Space(m, tlb), root, phys, vp, flags, table).0, root) <==>
        Twin(vp) !in tlb || Walk(m, root, Twin(vp)) == Some(Mapped(phys, flags, vp / SLOTS))
      ensures Twin(vp) in tlb ==> Walk(m, root, Twin(vp)).Some?
    {
      TwinStaleIff(Space(m, tlb), root, phys, vp, flags, table);
      assert Agrees(m, root, tlb, Twin(vp));
    }
    if Walk(m, root, Twin(vp)).Some? {
      CachedTwin(m, root, vp);
    }
  }

  /** A TLB that has the twin cached, correctly. */
  lemma CachedTwin(m: seq<Page>, root: Frame, vp: nat)
    requires |m| == CELLS && vp < ADDRESS_SPACE && Low(vp / SLOTS) && Walk(m, root, Twin(vp)).Some?
    ensures Exact(Space(m, map[Twin(vp) := Walk(m, root, Twin(vp)).value]), root)
  {
  }

  /** Unmapping a mapped page there is never safe for every TLB: its twin is mapped too, and may be cached. */
  lemma UnmapTwinSafeIff(m: seq<Page>, root: Frame, vp: nat)
    requires |m| == CELLS && TablesOk(m, root) && vp < ADDRESS_SPACE && Low(vp / SLOTS)
    ensures (forall tlb :: Exact(Space(m, tlb), root) ==> Exact(UnmapStep(Space(m, tlb), root, vp).0, root))
            <==> Walk(m, root, Twin(vp)).None?
  {
    forall tlb: map<nat, Mapping> | Exact(Space(m, tlb), root)
      ensures Exact(UnmapStep(Space(m, tlb), root, vp).0, root) <==> Twin(vp) !in tlb
      ensures Twin(vp) in tlb ==> Walk(m, root, Twin(vp)).Some?
    {
      UnmapTwinStaleIff(Space(m, tlb), root, vp);
      assert Agrees(m, root, tlb, Twin(vp));
    }
    if Walk(m, root, Twin(vp)).Some? {
      CachedTwin(m, root, vp);
    }
  }

  /** Right after boot every page of the low 4 MB has its twin mapped, so remapping one of them to another frame, or
      unmapping it, can leave a stale translation behind. */
  lemma TwinsAtBoot(m: seq<Page>, root: Frame, table: Frame, f: nat)
    requires |m| == CELLS && root != table && FirstDirectory(m, root, table) && FirstTable(m, table, SLOTS) && f < SLOTS
    ensures TablesOk(m, root) && Walk(m, root, Twin(KERNEL_SLOT * SLOTS + f)) == Some(Mapping(f, true, false))
  {
    InitialTablesOk(m, root, table);
    InitialWalk(m, root, table, f);
  }

  // ---------------------------------------------------------------- the flat page map

  /** Slots 0 and 768 are one table: their pages count as the same page. */
  function Key(vp: nat): nat {
    if vp / SLOTS == KERNEL_SLOT then vp % SLOTS else vp
  }

  lemma KeyTwins(vp: nat, wp: nat)
    ensures Key(vp) == Key(wp) <==> Twins(vp, wp)
  {
  }

  /** Outside the window the tables translate exactly the pages of the flat map, each to what the map holds. */
  ghost predicate Represents(pages: map<nat, Mapping>, m: seq<Page>, root: Frame)
    requires |m| == CELLS
  {
    forall vp :: 0 <= vp < ADDRESS_SPACE && vp / SLOTS != RECURSIVE ==> Lookup(pages, vp) == Walk(m, root, vp)
  }

  function Lookup(pages: map<nat, Mapping>, vp: nat): Option<Mapping> {
    if Key(vp) in pages then Some(pages[Key(vp)]) else None
  }

  /** What a call with result `r` does to the flat map. */
  function FlatNext(pages: map<nat, Mapping>, op: Op, r: int): map<nat, Mapping> {
    if op.Map? && r == 0 && op.phys < WORD then pages[Key(op.vp) := Mapped(op.phys, op.flags, op.vp / SLOTS)]
    else if op.Unmap? then pages - {Key(op.vp)}
    else pages
  }

  /** map is update, unmap is removal, a failed map and all TLB traffic change nothing. */
  lemma StepRefines(pages: map<nat, Mapping>, s: Space, root: Frame, op: Op)
    requires SpaceOk(s, root) && Enabled(s, root, op) && Represents(pages, s.mem, root)
    ensures Represents(FlatNext(pages, op, Next(s, root, op).1), Next(s, root, op).0.mem, root)
  {
    var s2, r := Next(s, root, op).0, Next(s, root, op).1;
    var after := FlatNext(pages, op, r);
    forall wp: nat | wp < ADDRESS_SPACE && wp / SLOTS != RECURSIVE ensures Lookup(after, wp) == Walk(s2.mem, root, wp) {
      assert Lookup(pages, wp) == Walk(s.mem, root, wp);
      KeyTwins(wp, op.vp);
      match op
      case Map(phys, vp, flags, table) =>
        if r == 0 {
          var pde := Pde(s.mem, root, vp / SLOTS);
          MapWalk(s.mem, root, phys, vp, flags, if pde.present then pde.frame else table.value, wp);
        }
      case Unmap(vp) => UnmapWalk(s.mem, root, vp, wp);
      case Fill(_) =>
      case Evict(_) =>
    }
  }

  // ---------------------------------------------------------------- every run

  /** Tables and TLB, and the frame allocator that provides the tables. */
  datatype System = System(s: Space, p: FrameAllocator.Pool)

  datatype Event = Paging(op: Op) | Alloc(address: nat) | Free(address: nat)

  /** A map asks the frame allocator for a table when it needs one. In between, anyone may allocate frames, and free
      frames they hold that are no tables. */
  ghost predicate SystemStep(x: System, root: Frame, e: Event, r: int, y: System)
    requires |x.s.mem| == CELLS
  {
    match e
    case Paging(op) =>
      Possible(x.s, root, op) && (y.s, r) == Next(x.s, root, op)
      && if op.Map? then TableAsked(x.s.mem, root, op.vp, x.p, y.p, op.table) else y.p == x.p
    case Alloc(address) => y.s == x.s && FrameAllocator.AllocStep(x.p, y.p, address)
    case Free(address) =>
      && y.s == x.s && address / 0x1000 < FRAMES && address / 0x1000 in x.p.held
      && NoTable(x.s.mem, root, address / 0x1000) && FrameAllocator.FreeStep(x.p, y.p, address)
  }

  ghost predicate SystemOk(x: System, root: Frame, initial: set<nat>) {
    SpaceOk(x.s, root) && Owns(x.s.mem, root, x.p, initial)
  }

  lemma PagingOwns(s: Space, root: Frame, op: Op, q: FrameAllocator.Pool, initial: set<nat>)
    requires SpaceOk(s, root) && Enabled(s, root, op) && Owns(s.mem, root, q, initial)
    requires op.Map? && op.table.Some? ==> Kept(q, initial, op.table.value)
    ensures Owns(Next(s, root, op).0.mem, root, q, initial)
  {
    match op
    case Map(phys, vp, flags, table) =>
      var pde := Pde(s.mem, root, vp / SLOTS);
      if pde.present || table.Some? {
        MapOwns(s.mem, root, q, initial, phys, vp, flags, if pde.present then pde.frame else table.value);
      }
    case Unmap(vp) => UnmapOwns(s, root, vp, q, initial);
    case Fill(_) =>
    case Evict(_) =>
  }

  lemma UnmapOwns(s: Space, root: Frame, vp: nat, q: FrameAllocator.Pool, initial: set<nat>)
    requires SpaceOk(s, root) && Enabled(s, root, Unmap(vp)) && Owns(s.mem, root, q, initial)
    ensures Owns(UnmapMem(s.mem, root, vp), root, q, initial)
  {
    var m, m2 := s.mem, UnmapMem(s.mem, root, vp);
    assert SlotOk(m, root, vp / SLOTS);
    forall d: nat | d < RECURSIVE && Pde(m2, root, d).present ensures Kept(q, initial, Pde(m2, root, d).frame) {
      if Pde(m, root, vp / SLOTS).present {
        PutPtePde(m, root, vp / SLOTS, vp % SLOTS, Pte(m, root, vp).(present := false, frame := 0), d);
      }
      assert Kept(q, initial, Pde(m, root, d).frame);
    }
  }

  lemma FreeOwns(m: seq<Page>, root: Frame, p: FrameAllocator.Pool, initial: set<nat>, address: nat, q: FrameAllocator.Pool)
    requires |m| == CELLS && Owns(m, root, p, initial) && address / 0x1000 < FRAMES && address / 0x1000 in p.held
    requires NoTable(m, root, address / 0x1000) && FrameAllocator.FreeStep(p, q, address)
    ensures Owns(m, root, q, initial)
  {
    FrameAllocator.FreeSound(p, initial, address, q);
    forall d | 0 <= d < RECURSIVE && Pde(m, root, d).present ensures Kept(q, initial, Pde(m, root, d).frame) {
      assert Kept(p, initial, Pde(m, root, d).frame);
    }
  }

  /** In a sound system a table that map is given is in use nowhere. */
  lemma AskedEnabled(x: System, root: Frame, op: Op, r: int, y: System, initial: set<nat>)
    requires SystemOk(x, root, initial) && SystemStep(x, root, Paging(op), r, y)
    ensures Enabled(x.s, root, op) && Owns(x.s.mem, root, y.p, initial)
    ensures op.Map? && op.table.Some? ==> Kept(y.p, initial, op.table.value)
  {
    if op.Map? { AskedOwns(x.s.mem, root, op.vp, x.p, initial, y.p, op.table); }
  }

  lemma SystemStepOk(x: System, root: Frame, e: Event, r: int, y: System, initial: set<nat>)
    requires SystemOk(x, root, initial) && SystemStep(x, root, e, r, y)
    ensures SystemOk(y, root, initial)
  {
    match e
    case Paging(op) =>
      AskedEnabled(x, root, op, r, y, initial);
      StepOk(x.s, root, op);
      PagingOwns(x.s, root, op, y.p, initial);
    case Alloc(address) => AllocOwns(x.s.mem, root, x.p, initial, address, y.p);
    case Free(address) => FreeOwns(x.s.mem, root, x.p, initial, address, y.p);
  }

  ghost predicate StepAt(xs: seq<System>, root: Frame, es: seq<Event>, rs: seq<int>, i: nat)
    requires |xs| == |es| + 1 == |rs| + 1 && i < |es|
  {
    |xs[i].s.mem| == CELLS && SystemStep(xs[i], root, es[i], rs[i], xs[i + 1])
  }

  ghost predicate Run(xs: seq<System>, root: Frame, es: seq<Event>, rs: seq<int>) {
    |xs| == |es| + 1 == |rs| + 1 && forall i :: 0 <= i < |es| ==> StepAt(xs, root, es, rs, i)
  }

  /** The flat map after the first `i` events with their results. */
  function FlatRun(pages: map<nat, Mapping>, es: seq<Event>, rs: seq<int>, i: nat): map<nat, Mapping>
    requires i <= |es| == |rs|
  {
    if i == 0 then pages
    else if es[i - 1].Paging? then FlatNext(FlatRun(pages, es, rs, i - 1), es[i - 1].op, rs[i - 1])
    else FlatRun(pages, es, rs, i - 1)
  }

  lemma {:induction false} RunOk(xs: seq<System>, root: Frame, es: seq<Event>, rs: seq<int>, initial: set<nat>, i: nat)
    requires Run(xs, root, es, rs) && SystemOk(xs[0], root, initial) && i < |xs|
    ensures SystemOk(xs[i], root, initial)
  {
    if i > 0 {
      RunOk(xs, root, es, rs, initial, i - 1);
      assert StepAt(xs, root, es, rs, i - 1);
      SystemStepOk(xs[i - 1], root, es[i - 1], rs[i - 1], xs[i], initial);
    }
  }

  /** In every run of map, unmap, frame allocation and TLB traffic the tables stay well-formed and out of the frame
      allocator's hands, every cached translation outside slots 0 and 768 is current, and the translations are those
      of the flat map to which the same calls were applied. */
  lemma {:induction false} RunRefines(xs: seq<System>, root: Frame, es: seq<Event>, rs: seq<int>, initial: set<nat>,
                                      pages: map<nat, Mapping>, i: nat)
    requires Run(xs, root, es, rs) && SystemOk(xs[0], root, initial) && Represents(pages, xs[0].s.mem, root) && i < |xs|
    ensures SystemOk(xs[i], root, initial) && Represents(FlatRun(pages, es, rs, i), xs[i].s.mem, root)
  {
    RunOk(xs, root, es, rs, initial, i);
    if i > 0 {
      RunRefines(xs, root, es, rs, initial, pages, i - 1);
      assert StepAt(xs, root, es, rs, i - 1);
      if es[i - 1].Paging? {
        AskedEnabled(xs[i - 1], root, es[i - 1].op, rs[i - 1], xs[i], initial);
        StepRefines(FlatRun(pages, es, rs, i - 1), xs[i - 1].s, root, es[i - 1].op);
      }
    }
  }

  // ---------------------------------------------------------------- results

  /** A map succeeds exactly if its slot has a table or a frame can be had for one; otherwise it returns ENOMEM. */
  lemma MapResult(x: System, root: Frame, op: Op, r: int, y: System, initial: set<nat>)
    requires SystemOk(x, root, initial) && op.Map? && SystemStep(x, root, Paging(op), r, y)
    ensures r == 0 <==> Pde(x.s.mem, root, op.vp / SLOTS).present || FrameAllocator.Available(x.p) > 0
    ensures r != 0 ==> r == ENOMEM && y.s.mem == x.s.mem
  {
    if !Pde(x.s.mem, root, op.vp / SLOTS).present {
      var address: nat :| TableGiven(x.p, address, y.p, op.table);
      AskedOwns(x.s.mem, root, op.vp, x.p, initial, y.p, op.table);
      FrameAllocator.AllocAvailable(x.p, initial, address, y.p);
    }
  }

  /** An unmap returns 0 exactly if its slot has a table, whether or not the page was mapped, and -1 otherwise. */
  lemma UnmapResult(x: System, root: Frame, vp: nat, r: int, y: System)
    requires |x.s.mem| == CELLS && SystemStep(x, root, Paging(Unmap(vp)), r, y)
    ensures r == if Pde(x.s.mem, root, vp / SLOTS).present then 0 else -1
    ensures Walk(x.s.mem, root, vp).Some? ==> r == 0
  {
  }

  /** Of the flags bit 1 makes a page writable and bit 2 makes it the user's, except in the first 4 MB of the lower and
      of the kernel's half; of the address the low 12 bits are dropped. */
  lemma FlagBits(f: Frame, offset: nat, present: bool, rw: bool, user: bool, more: nat, d: nat)
    requires offset < 0x1000
    ensures var flags := (if present then 1 else 0) + (if rw then 2 else 0) + (if user then 4 else 0) + 8 * more;
      f * 0x1000 + offset < WORD && Mapped(f * 0x1000 + offset, flags, d) == Mapping(f, rw, user && !Low(d))
  {
    WholeFrame(f, offset);
    BitsOf(present, rw, user, more);
  }

  lemma WholeFrame(f: Frame, offset: nat)
    requires offset < 0x1000
    ensures f * 0x1000 + offset < WORD && (f * 0x1000 + offset) / 0x1000 == f
  {
  }

  lemma BitsOf(present: bool, rw: bool, user: bool, more: nat)
    ensures var flags := (if present then 1 else 0) + (if rw then 2 else 0) + (if user then 4 else 0) + 8 * more;
      (flags / 2 % 2 == 1 <==> rw) && (flags / 4 % 2 == 1 <==> user)
  {
    var low := (if present then 1 else 0) + (if rw then 2 else 0) + (if user then 4 else 0);
    HigherBits(low, more);
  }

  lemma HigherBits(low: nat, more: nat)
    requires low < 8
    ensures (low + 8 * more) / 2 % 2 == low / 2 % 2 && (low + 8 * more) / 4 % 2 == low / 4 % 2
  {
    assert (low + 8 * more) / 2 == low / 2 + 4 * more;
    assert (low + 8 * more) / 4 == low / 4 + 2 * more;
  }

  /** Neither slot 0 nor slot 768 is mapped or unmapped. */
  ghost predicate AvoidsLow(es: seq<Event>) {
    forall k :: 0 <= k < |es| && es[k].Paging? && (es[k].op.Map? || es[k].op.Unmap?) ==> Ordinary(es[k].op.vp / SLOTS)
  }

  /** With map and unmap confined to ordinary slots, every cached translation is current in every run. */
  lemma {:induction false} RunExact(xs: seq<System>, root: Frame, es: seq<Event>, rs: seq<int>, initial: set<nat>, i: nat)
    requires Run(xs, root, es, rs) && SystemOk(xs[0], root, initial) && Exact(xs[0].s, root) && i < |xs| && AvoidsLow(es)
    ensures SystemOk(xs[i], root, initial) && Exact(xs[i].s, root)
  {
    RunOk(xs, root, es, rs, initial, i);
    if i > 0 {
      RunExact(xs, root, es, rs, initial, i - 1);
      assert StepAt(xs, root, es, rs, i - 1);
      if es[i - 1].Paging? {
        AskedEnabled(xs[i - 1], root, es[i - 1].op, rs[i - 1], xs[i], initial);
        StepOk(xs[i - 1].s, root, es[i - 1].op);
      }
    }
  }

  /** The low 4 MB, one to one. */
  function BootPages(): map<nat, Mapping> {
    map f | 0 <= f < SLOTS :: Mapping(f, true, false)
  }

  /** That is the flat map after boot. */
  lemma BootRepresents(m: seq<Page>, root: Frame, table: Frame)
    requires |m| == CELLS && root != table && FirstDirectory(m, root, table) && FirstTable(m, table, SLOTS)
    ensures SpaceOk(Space(m, map[]), root) && Exact(Space(m, map[]), root)
    ensures Represents(BootPages(), m, root)
  {
    InitialTablesOk(m, root, table);
    forall vp: nat | vp < ADDRESS_SPACE && vp / SLOTS != RECURSIVE ensures Lookup(BootPages(), vp) == Walk(m, root, vp) {
      InitialWalk(m, root, table, vp);
    }
  }
}
