/** Two-level 32-bit page tables (section 4.3 of the Intel SDM Volume 3A) reached through a directory slot that
    points at the directory itself. */
module PageTables {
  import opened ByteStore
  import opened FrameBitmap

  const SLOTS := 1024
  const CELLS := 0x4000_0000
  const ADDRESS_SPACE := 0x10_0000
  const RECURSIVE := 1023
  const KERNEL_SLOT := 768

  type Frame = x: int | 0 <= x < FRAMES

  /** A directory or table entry; `rest` holds the nine attribute bits no code here touches. */
  datatype Page = Page(present: bool, rw: bool, user: bool, rest: nat, frame: Frame)

  const ZERO := Page(false, false, false, 0, 0)

  datatype Option<T> = None | Some(value: T)

  /** What a virtual page resolves to: rights need both levels' consent. */
  datatype Mapping = Mapping(frame: Frame, rw: bool, user: bool)

  // ---------------------------------------------------------------- physical memory as 4-byte cells

  function Cell(frame: Frame, slot: nat): (r: nat)
    requires slot < SLOTS
    ensures r < CELLS
  {
    SLOTS * frame + slot
  }

  function At(m: seq<Page>, frame: Frame, slot: nat): Page
    requires |m| == CELLS && slot < SLOTS
  {
    m[Cell(frame, slot)]
  }

  function Put(m: seq<Page>, frame: Frame, slot: nat, p: Page): (r: seq<Page>)
    requires |m| == CELLS && slot < SLOTS
    ensures |r| == CELLS
  {
    m[Cell(frame, slot) := p]
  }

  lemma CellApart(f: Frame, s: nat, g: Frame, t: nat)
    requires s < SLOTS && t < SLOTS
    ensures Cell(f, s) == Cell(g, t) <==> f == g && s == t
  {
  }

  lemma PutAt(m: seq<Page>, f: Frame, s: nat, p: Page, g: Frame, t: nat)
    requires |m| == CELLS && s < SLOTS && t < SLOTS
    ensures At(Put(m, f, s, p), g, t) == if f == g && s == t then p else At(m, g, t)
  {
    CellApart(f, s, g, t);
  }

  // ---------------------------------------------------------------- the hardware walk

  function Pde(m: seq<Page>, root: Frame, slot: nat): Page
    requires |m| == CELLS && slot < SLOTS
  {
    At(m, root, slot)
  }

  /** The translation of virtual page `vp` in the tables at `root`. */
  function Walk(m: seq<Page>, root: Frame, vp: nat): Option<Mapping>
    requires |m| == CELLS && vp < ADDRESS_SPACE
  {
    var pde := At(m, root, vp / SLOTS);
    if !pde.present then None else
      var pte := At(m, pde.frame, vp % SLOTS);
      if !pte.present then None else Some(Mapping(pte.frame, pde.rw && pte.rw, pde.user && pte.user))
  }

  // ---------------------------------------------------------------- the recursive window

  function PtePtr(v: nat): (r: nat)
    requires v < WORD
  {
    0xFFC0_0000 + v / 0x1000 * 4
  }

  function PdePtr(v: nat): (r: nat)
    requires v < WORD
  {
    0xFFFF_F000 + v / 0x40_0000 * 4
  }

  function VPage(v: nat): (r: nat)
    requires v < WORD
    ensures r < ADDRESS_SPACE
  {
    v / 0x1000
  }

  /** The page of the window through which the table of slot `d` is seen. */
  function Window(d: nat): (r: nat)
    requires d < SLOTS
    ensures r < ADDRESS_SPACE
  {
    RECURSIVE * SLOTS + d
  }

  /** The physical cell that an access at `v` reaches when its page maps to frame `f`. */
  function Target(v: nat, f: Frame): (r: nat)
    requires v < WORD
    ensures r < CELLS
  {
    Cell(f, v % 0x1000 / 4)
  }

  lemma PtePtrSplits(v: nat)
    requires v < WORD
    ensures PtePtr(v) < WORD && PtePtr(v) % 4 == 0
    ensures VPage(PtePtr(v)) == Window(VPage(v) / SLOTS) && PtePtr(v) % 0x1000 / 4 == VPage(v) % SLOTS
  {
    var n := v / 0x1000;
    assert n == n / 1024 * 1024 + n % 1024;
  }

  lemma PdePtrSplits(v: nat)
    requires v < WORD
    ensures PdePtr(v) < WORD && PdePtr(v) % 4 == 0
    ensures VPage(PdePtr(v)) == Window(RECURSIVE) && PdePtr(v) % 0x1000 / 4 == VPage(v) / SLOTS
  {
    assert v / 0x40_0000 == v / 0x1000 / 1024;
  }

  /** Slot 1023 of the directory at `root` points at that directory. */
  predicate Recursive(m: seq<Page>, root: Frame)
    requires |m| == CELLS
  {
    var e := Pde(m, root, RECURSIVE);
    e.present && e.rw && !e.user && e.frame == root
  }

  /** A window page shows the table of its slot, whenever that slot is present. */
  lemma WindowWalk(m: seq<Page>, root: Frame, d: nat)
    requires |m| == CELLS && d < SLOTS && Recursive(m, root)
    ensures Walk(m, root, Window(d)) ==
      var e := Pde(m, root, d); if e.present then Some(Mapping(e.frame, e.rw, false)) else None
  {
  }

  /** Walking GET_PDE_PTR(v) lands on exactly the directory entry of `v`, for every `v`. */
  lemma PdeWindow(m: seq<Page>, root: Frame, v: nat)
    requires |m| == CELLS && v < WORD && Recursive(m, root)
    ensures PdePtr(v) < WORD
    ensures Walk(m, root, VPage(PdePtr(v))) == Some(Mapping(root, true, false))
    ensures Target(PdePtr(v), root) == Cell(root, VPage(v) / SLOTS)
  {
    PdePtrSplits(v);
    WindowWalk(m, root, RECURSIVE);
  }

  /** Walking GET_PTE_PTR(v) lands on exactly the table entry of `v` if its table is present, and faults if not. */
  lemma PteWindow(m: seq<Page>, root: Frame, v: nat)
    requires |m| == CELLS && v < WORD && Recursive(m, root)
    ensures PtePtr(v) < WORD
    ensures var e := Pde(m, root, VPage(v) / SLOTS);
      if e.present then
        && Walk(m, root, VPage(PtePtr(v))) == Some(Mapping(e.frame, e.rw, false))
        && Target(PtePtr(v), e.frame) == Cell(e.frame, VPage(v) % SLOTS)
      else Walk(m, root, VPage(PtePtr(v))) == None
  {
    PtePtrSplits(v);
    WindowWalk(m, root, VPage(v) / SLOTS);
  }

  // ---------------------------------------------------------------- well-formed tables

  /** Slots 0 and 768 share the first table. */
  predicate Low(d: nat) {
    d == 0 || d == KERNEL_SLOT
  }

  predicate Ordinary(d: nat) {
    d < RECURSIVE && !Low(d)
  }

  predicate SlotOk(m: seq<Page>, root: Frame, d: nat)
    requires |m| == CELLS && d < RECURSIVE
  {
    var e := Pde(m, root, d);
    && (Low(d) ==> e.present && e.rw && !e.user && e.frame == Pde(m, root, 0).frame)
    && (e.present ==> e.frame != root && e.rw)
    && (Ordinary(d) && e.present ==> e.user)
  }

  /** Two slots in use share a table only if they are slots 0 and 768. */
  predicate SlotsApart(m: seq<Page>, root: Frame, d: nat, e: nat)
    requires |m| == CELLS && d < RECURSIVE && e < RECURSIVE
  {
    var p, q := Pde(m, root, d), Pde(m, root, e);
    p.present && q.present && p.frame == q.frame ==> d == e || (Low(d) && Low(e))
  }

  ghost predicate TablesOk(m: seq<Page>, root: Frame)
    requires |m| == CELLS
  {
    && Recursive(m, root)
    && (forall d :: 0 <= d < RECURSIVE ==> SlotOk(m, root, d))
    && forall d, e :: 0 <= d < RECURSIVE && 0 <= e < RECURSIVE ==> SlotsApart(m, root, d, e)
  }

  /** No present slot uses frame `f` as its table. */
  ghost predicate NoTable(m: seq<Page>, root: Frame, f: Frame)
    requires |m| == CELLS
  {
    f != root && forall d :: 0 <= d < RECURSIVE && Pde(m, root, d).present ==> Pde(m, root, d).frame != f
  }

  /** Two virtual pages translated by the same table entry. */
  predicate Twins(vp: nat, wp: nat) {
    vp == wp || (vp % SLOTS == wp % SLOTS && Low(vp / SLOTS) && Low(wp / SLOTS))
  }

  // ---------------------------------------------------------------- what map and unmap write

  function NewPde(e: Page, table: Frame): Page {
    e.(frame := table, present := true, rw := true, user := true)
  }

  function NewPte(e: Page, phys: nat, flags: nat): Page
    requires phys < WORD
  {
    e.(frame := phys / 0x1000, present := true, rw := flags / 2 % 2 == 1, user := flags / 4 % 2 == 1)
  }

  /** The first `n` entries of frame `f` zeroed. */
  function ZeroPage(m: seq<Page>, f: Frame, n: nat): (r: seq<Page>)
    requires |m| == CELLS && n <= SLOTS
    ensures |r| == CELLS
  {
    m[..SLOTS * f] + seq(n, _ => ZERO) + m[SLOTS * f + n..]
  }

  lemma ZeroAt(m: seq<Page>, f: Frame, n: nat, g: Frame, s: nat)
    requires |m| == CELLS && n <= SLOTS && s < SLOTS
    ensures At(ZeroPage(m, f, n), g, s) == if f == g && s < n then ZERO else At(m, g, s)
  {
  }

  function NewTable(m: seq<Page>, root: Frame, d: nat, table: Frame): (r: seq<Page>)
    requires |m| == CELLS && d < SLOTS
    ensures |r| == CELLS
  {
    ZeroPage(Put(m, root, d, NewPde(Pde(m, root, d), table)), table, SLOTS)
  }

  /** Entry `t` of the table of slot `d` becomes `p`. */
  function PutPte(m: seq<Page>, root: Frame, d: nat, t: nat, p: Page): (r: seq<Page>)
    requires |m| == CELLS && d < SLOTS && t < SLOTS
    ensures |r| == CELLS
  {
    Put(m, Pde(m, root, d).frame, t, p)
  }

  function Pte(m: seq<Page>, root: Frame, vp: nat): Page
    requires |m| == CELLS && vp < ADDRESS_SPACE
  {
    At(m, Pde(m, root, vp / SLOTS).frame, vp % SLOTS)
  }

  function Prepared(m: seq<Page>, root: Frame, vp: nat, table: Frame): (r: seq<Page>)
    requires |m| == CELLS && vp < ADDRESS_SPACE
    ensures |r| == CELLS
  {
    if Pde(m, root, vp / SLOTS).present then m else NewTable(m, root, vp / SLOTS, table)
  }

  /** Memory after vmm_page_map succeeded; `table` is the frame used if the slot had no table. */
  function MapMem(m: seq<Page>, root: Frame, phys: nat, vp: nat, flags: nat, table: Frame): (r: seq<Page>)
    requires |m| == CELLS && vp < ADDRESS_SPACE && phys < WORD
    ensures |r| == CELLS
  {
    var m1 := Prepared(m, root, vp, table);
    PutPte(m1, root, vp / SLOTS, vp % SLOTS, NewPte(Pte(m1, root, vp), phys, flags))
  }

  function UnmapMem(m: seq<Page>, root: Frame, vp: nat): (r: seq<Page>)
    requires |m| == CELLS && vp < ADDRESS_SPACE
    ensures |r| == CELLS
  {
    if !Pde(m, root, vp / SLOTS).present || !Pte(m, root, vp).present then m
    else PutPte(m, root, vp / SLOTS, vp % SLOTS, Pte(m, root, vp).(present := false, frame := 0))
  }

  // ---------------------------------------------------------------- and what that changes

  lemma NewTablePde(m: seq<Page>, root: Frame, d: nat, table: Frame, e: nat)
    requires |m| == CELLS && d < SLOTS && e < SLOTS && table != root
    ensures Pde(NewTable(m, root, d, table), root, e) == if e == d then NewPde(Pde(m, root, d), table) else Pde(m, root, e)
  {
    var m1 := Put(m, root, d, NewPde(Pde(m, root, d), table));
    PutAt(m, root, d, NewPde(Pde(m, root, d), table), root, e);
    ZeroAt(m1, table, SLOTS, root, e);
  }

  lemma NewTableCell(m: seq<Page>, root: Frame, d: nat, table: Frame, g: Frame, t: nat)
    requires |m| == CELLS && d < SLOTS && t < SLOTS && g != root
    ensures At(NewTable(m, root, d, table), g, t) == if g == table then ZERO else At(m, g, t)
  {
    var m1 := Put(m, root, d, NewPde(Pde(m, root, d), table));
    PutAt(m, root, d, NewPde(Pde(m, root, d), table), g, t);
    ZeroAt(m1, table, SLOTS, g, t);
  }

  lemma NewTableOk(m: seq<Page>, root: Frame, d: nat, table: Frame)
    requires |m| == CELLS && TablesOk(m, root) && d < RECURSIVE && !Pde(m, root, d).present && NoTable(m, root, table)
    ensures TablesOk(NewTable(m, root, d, table), root)
  {
    var m2 := NewTable(m, root, d, table);
    forall e: nat | e < SLOTS ensures Pde(m2, root, e) == if e == d then NewPde(Pde(m, root, d), table) else Pde(m, root, e) {
      NewTablePde(m, root, d, table, e);
    }
    assert SlotOk(m, root, d) && SlotOk(m, root, 0);
    forall e: nat | e < RECURSIVE ensures SlotOk(m2, root, e) { assert SlotOk(m, root, e); }
    forall e: nat, g: nat | e < RECURSIVE && g < RECURSIVE ensures SlotsApart(m2, root, e, g) {
      assert SlotsApart(m, root, e, g);
    }
  }

  /** Creating a table changes no translation but that of the window page through which it is seen. */
  lemma NewTableWalk(m: seq<Page>, root: Frame, d: nat, table: Frame, vp: nat)
    requires |m| == CELLS && TablesOk(m, root) && d < RECURSIVE && !Pde(m, root, d).present && NoTable(m, root, table)
    requires vp < ADDRESS_SPACE
    ensures Walk(NewTable(m, root, d, table), root, vp) ==
      if vp == Window(d) then Some(Mapping(table, true, false)) else Walk(m, root, vp)
  {
    var m2 := NewTable(m, root, d, table);
    var e := vp / SLOTS;
    NewTablePde(m, root, d, table, e);
    if e == RECURSIVE {
      NewTablePde(m, root, d, table, RECURSIVE);
      NewTablePde(m, root, d, table, vp % SLOTS);
      WindowWalk(m, root, vp % SLOTS);
      WindowWalk(m2, root, vp % SLOTS);
      assert vp == Window(vp % SLOTS);
    } else if e == d {
      NewTableCell(m, root, d, table, table, vp % SLOTS);
    } else if Pde(m, root, e).present {
      assert SlotOk(m, root, e);
      NewTableCell(m, root, d, table, Pde(m, root, e).frame, vp % SLOTS);
    }
  }

  lemma PutPtePde(m: seq<Page>, root: Frame, d: nat, t: nat, p: Page, e: nat)
    requires |m| == CELLS && d < SLOTS && t < SLOTS && e < SLOTS && Pde(m, root, d).frame != root
    ensures Pde(PutPte(m, root, d, t, p), root, e) == Pde(m, root, e)
  {
    PutAt(m, Pde(m, root, d).frame, t, p, root, e);
  }

  lemma PutPteOk(m: seq<Page>, root: Frame, d: nat, t: nat, p: Page)
    requires |m| == CELLS && TablesOk(m, root) && d < RECURSIVE && t < SLOTS && Pde(m, root, d).present
    ensures TablesOk(PutPte(m, root, d, t, p), root)
  {
    var m2 := PutPte(m, root, d, t, p);
    assert SlotOk(m, root, d);
    forall e: nat | e < SLOTS ensures Pde(m2, root, e) == Pde(m, root, e) { PutPtePde(m, root, d, t, p, e); }
    forall e: nat | e < RECURSIVE ensures SlotOk(m2, root, e) { assert SlotOk(m, root, e); }
    forall e: nat, g: nat | e < RECURSIVE && g < RECURSIVE ensures SlotsApart(m2, root, e, g) {
      assert SlotsApart(m, root, e, g);
    }
  }

  /** What a table entry contributes under slot `d`. */
  function Translation(p: Page, d: nat): Option<Mapping> {
    if p.present then Some(Mapping(p.frame, p.rw, p.user && !Low(d))) else None
  }

  /** Writing one table entry changes exactly the translations of the pages that share it. */
  lemma PutPteWalk(m: seq<Page>, root: Frame, d: nat, t: nat, p: Page, vp: nat)
    requires |m| == CELLS && TablesOk(m, root) && d < RECURSIVE && t < SLOTS && Pde(m, root, d).present
    requires vp < ADDRESS_SPACE
    ensures Walk(PutPte(m, root, d, t, p), root, vp) ==
      if vp / SLOTS != RECURSIVE && Twins(vp, SLOTS * d + t) then Translation(p, d) else Walk(m, root, vp)
  {
    var m2 := PutPte(m, root, d, t, p);
    var e := vp / SLOTS;
    assert SlotOk(m, root, d);
    PutPtePde(m, root, d, t, p, e);
    if e == RECURSIVE {
      PutPtePde(m, root, d, t, p, RECURSIVE);
      PutPtePde(m, root, d, t, p, vp % SLOTS);
      WindowWalk(m, root, vp % SLOTS);
      WindowWalk(m2, root, vp % SLOTS);
      assert vp == Window(vp % SLOTS);
    } else {
      SlotSplits(vp, d, t);
      assert SlotOk(m, root, e) && SlotsApart(m, root, d, e);
      if Pde(m, root, e).present {
        PutAt(m, Pde(m, root, d).frame, t, p, Pde(m, root, e).frame, vp % SLOTS);
      }
    }
  }

  lemma SlotSplits(vp: nat, d: nat, t: nat)
    requires t < SLOTS
    ensures (SLOTS * d + t) / SLOTS == d && (SLOTS * d + t) % SLOTS == t
    ensures vp == SLOTS * d + t <==> vp / SLOTS == d && vp % SLOTS == t
  {
  }

  // ---------------------------------------------------------------- map and unmap refine a flat page map

  /** What vmm_page_map makes of `vp`'s translation. */
  function Mapped(phys: nat, flags: nat, d: nat): Mapping
    requires phys < WORD
  {
    Mapping(phys / 0x1000, flags / 2 % 2 == 1, flags / 4 % 2 == 1 && !Low(d))
  }

  /** The frame given to vmm_page_map is needed, and is then in use nowhere. */
  ghost predicate TableFits(m: seq<Page>, root: Frame, vp: nat, table: Frame)
    requires |m| == CELLS && vp < ADDRESS_SPACE
  {
    !Pde(m, root, vp / SLOTS).present ==> NoTable(m, root, table)
  }

  lemma PreparedOk(m: seq<Page>, root: Frame, vp: nat, table: Frame)
    requires |m| == CELLS && vp < ADDRESS_SPACE && vp / SLOTS < RECURSIVE && TablesOk(m, root) && TableFits(m, root, vp, table)
    ensures TablesOk(Prepared(m, root, vp, table), root)
    ensures Pde(Prepared(m, root, vp, table), root, vp / SLOTS).present
  {
    if !Pde(m, root, vp / SLOTS).present {
      NewTableOk(m, root, vp / SLOTS, table);
      NewTablePde(m, root, vp / SLOTS, table, vp / SLOTS);
    }
  }

  lemma MapOk(m: seq<Page>, root: Frame, phys: nat, vp: nat, flags: nat, table: Frame)
    requires |m| == CELLS && vp < ADDRESS_SPACE && vp / SLOTS < RECURSIVE && phys < WORD
    requires TablesOk(m, root) && TableFits(m, root, vp, table)
    ensures TablesOk(MapMem(m, root, phys, vp, flags, table), root)
  {
    PreparedOk(m, root, vp, table);
    var m1 := Prepared(m, root, vp, table);
    PutPteOk(m1, root, vp / SLOTS, vp % SLOTS, NewPte(Pte(m1, root, vp), phys, flags));
  }

  /** Mapping a page updates the flat map at that page (and, in slots 0 and 768, at its twin) and nowhere else;
      of the window, only the page showing a new table changes. */
  lemma MapWalk(m: seq<Page>, root: Frame, phys: nat, vp: nat, flags: nat, table: Frame, wp: nat)
    requires |m| == CELLS && vp < ADDRESS_SPACE && vp / SLOTS < RECURSIVE && phys < WORD && wp < ADDRESS_SPACE
    requires TablesOk(m, root) && TableFits(m, root, vp, table)
    ensures Walk(MapMem(m, root, phys, vp, flags, table), root, wp) ==
      if wp / SLOTS != RECURSIVE && Twins(wp, vp) then Some(Mapped(phys, flags, vp / SLOTS))
      else if wp == Window(vp / SLOTS) && !Pde(m, root, vp / SLOTS).present then Some(Mapping(table, true, false))
      else Walk(m, root, wp)
  {
    PreparedOk(m, root, vp, table);
    var m1 := Prepared(m, root, vp, table);
    PutPteWalk(m1, root, vp / SLOTS, vp % SLOTS, NewPte(Pte(m1, root, vp), phys, flags), wp);
    if !Pde(m, root, vp / SLOTS).present { NewTableWalk(m, root, vp / SLOTS, table, wp); }
  }

  lemma UnmapOk(m: seq<Page>, root: Frame, vp: nat)
    requires |m| == CELLS && vp < ADDRESS_SPACE && vp / SLOTS < RECURSIVE && TablesOk(m, root)
    ensures TablesOk(UnmapMem(m, root, vp), root)
  {
    if Pde(m, root, vp / SLOTS).present {
      PutPteOk(m, root, vp / SLOTS, vp % SLOTS, Pte(m, root, vp).(present := false, frame := 0));
    }
  }

  /** Unmapping removes the page (and its twin) from the flat map and changes nothing else. */
  lemma UnmapWalk(m: seq<Page>, root: Frame, vp: nat, wp: nat)
    requires |m| == CELLS && vp < ADDRESS_SPACE && vp / SLOTS < RECURSIVE && TablesOk(m, root) && wp < ADDRESS_SPACE
    ensures Walk(UnmapMem(m, root, vp), root, wp) ==
      if wp / SLOTS != RECURSIVE && Twins(wp, vp) then None else Walk(m, root, wp)
  {
    var d, t := vp / SLOTS, vp % SLOTS;
    if Pde(m, root, d).present {
      PutPteWalk(m, root, d, t, Pte(m, root, vp).(present := false, frame := 0), wp);
      PutPteWalk(m, root, d, t, Pte(m, root, vp), wp);
      assert PutPte(m, root, d, t, Pte(m, root, vp)) == m;
    } else if wp / SLOTS < RECURSIVE {
      assert SlotOk(m, root, d);
    }
  }

  // ---------------------------------------------------------------- the initial tables

  /** The first table: 4 MB mapped one to one, supervisor only. */
  ghost predicate FirstTable(m: seq<Page>, table: Frame, n: nat)
    requires |m| == CELLS && n <= SLOTS
  {
    forall i :: 0 <= i < n ==> At(m, table, i) == Page(true, true, false, 0, i)
  }

  /** A directory with only slots 0, 768 and 1023 in use. */
  ghost predicate FirstDirectory(m: seq<Page>, root: Frame, table: Frame)
    requires |m| == CELLS
  {
    forall d :: 0 <= d < SLOTS ==> Pde(m, root, d) == FirstPde(root, table, d)
  }

  function FirstPde(root: Frame, table: Frame, d: nat): Page {
    if Low(d) then Page(true, true, false, 0, table)
    else if d == RECURSIVE then Page(true, true, false, 0, root)
    else ZERO
  }

  lemma InitialTablesOk(m: seq<Page>, root: Frame, table: Frame)
    requires |m| == CELLS && root != table && FirstDirectory(m, root, table)
    ensures TablesOk(m, root)
  {
    assert Pde(m, root, RECURSIVE) == FirstPde(root, table, RECURSIVE);
    forall d: nat | d < RECURSIVE ensures SlotOk(m, root, d) {
      assert Pde(m, root, 0) == FirstPde(root, table, 0);
    }
    forall d: nat, e: nat | d < RECURSIVE && e < RECURSIVE ensures SlotsApart(m, root, d, e) {}
  }

  /** At first the low 4 MB appear at 0 and again at 3 GB, and below the window nothing else is mapped. */
  lemma InitialWalk(m: seq<Page>, root: Frame, table: Frame, vp: nat)
    requires |m| == CELLS && root != table && vp < ADDRESS_SPACE && vp / SLOTS != RECURSIVE
    requires FirstDirectory(m, root, table) && FirstTable(m, table, SLOTS)
    ensures Walk(m, root, vp) ==
      if vp < SLOTS then Some(Mapping(vp, true, false))
      else if KERNEL_SLOT * SLOTS <= vp < KERNEL_SLOT * SLOTS + SLOTS then Some(Mapping(vp - KERNEL_SLOT * SLOTS, true, false))
      else None
  {
    assert Pde(m, root, vp / SLOTS) == FirstPde(root, table, vp / SLOTS);
  }
}
