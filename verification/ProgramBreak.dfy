/** The program break: `sbrk` and the pages it maps and unmaps (brk.c). Whether a page can be obtained and
    mapped is up to the frame allocator and the page tables; here it is a parameter, `supply`, the number of
    pages that can still be had. Module KernelBreak shows that growth over these two is `Grow` for some supply. */
module ProgramBreak {
  import opened ByteStore

  const KERNEL_BASE := 0xC000_0000

  /** `mapped` holds the numbers of the mapped pages. */
  datatype Break = Break(start: nat, brk: nat, mapped: set<nat>)

  /** The page numbers from `lo` up to, but not including, `hi`. */
  function Pages(lo: nat, hi: nat): (r: set<nat>)
    ensures forall p :: p in r <==> lo <= p < hi
    decreases hi
  {
    if hi <= lo then {} else Pages(lo, hi - 1) + {hi - 1}
  }

  /** (x + PAGE_SIZE - 1) & ~(PAGE_SIZE - 1) on 32 bits. */
  function PageUp(x: nat): nat {
    Wrap(x + 4095) / 4096 * 4096
  }

  ghost predicate Wf(b: Break) {
    b.start % 4096 == 0 && KERNEL_BASE <= b.start <= b.brk && b.brk + 4095 < WORD
  }

  /** Every page from the heap start up to the rounded-up break is mapped. */
  ghost predicate Covered(b: Break) {
    forall p :: b.start / 4096 <= p < (b.brk + 4095) / 4096 ==> p in b.mapped
  }

  /** The very last page of the address space is not mapped; growth never maps it (`RunCovers`). */
  ghost predicate TopUnmapped(b: Break) {
    WORD / 4096 - 1 !in b.mapped
  }

  function Need(b: Break, inc: nat): nat {
    var cur, top := PageUp(b.brk), PageUp(Wrap(b.brk + inc));
    if top > cur then (top - cur) / 4096 else 0
  }

  function Grow(b: Break, inc: nat, supply: nat): (Break, bool) {
    var cur, need := PageUp(b.brk) / 4096, Need(b, inc);
    if supply < need then (b.(mapped := b.mapped + Pages(cur, cur + supply)), false)
    else (b.(brk := Wrap(b.brk + inc), mapped := b.mapped + Pages(cur, cur + need)), true)
  }

  function Shrink(b: Break, dec: nat): (Break, bool)
    requires dec <= b.brk
  {
    if b.brk - dec < b.start then (b, false) else
      var q := dec / 4096;
      (b.(brk := b.brk - q * 4096, mapped := b.mapped - Pages(b.brk / 4096 - q, b.brk / 4096)), true)
  }

  function Sbrk(b: Break, increment: int, supply: nat): (Break, bool)
    requires -increment <= b.brk
  {
    if increment >= 0 then Grow(b, increment, supply) else Shrink(b, -increment)
  }

  /** Rounded-up addresses are whole pages apart. */
  lemma WholePages(x: nat, y: nat)
    ensures PageUp(x) % 4096 == 0 && PageUp(y) % 4096 == 0
    ensures PageUp(y) > PageUp(x) ==> PageUp(x) / 4096 + (PageUp(y) - PageUp(x)) / 4096 == PageUp(y) / 4096
  {
  }

  class BreakCell {
    var start: nat
    var brk: nat
    var mapped: set<nat>

    ghost function View(): Break
      reads this
    {
      Break(start, brk, mapped)
    }

    constructor (start: nat, brk: nat, mapped: set<nat>)
      ensures View() == Break(start, brk, mapped)
    {
      this.start, this.brk, this.mapped := start, brk, mapped;
    }

    /** The mapping loop of increment_brk: pages from `from` up to `to`, as far as the supply lasts. */
    method MapPages(from: nat, to: nat, supply: nat) returns (ok: bool)
      requires from % 4096 == 0 && to % 4096 == 0 && from <= to
      modifies this
      ensures ok <==> supply >= (to - from) / 4096
      ensures View() == old(View()).(mapped := old(mapped) + Pages(from / 4096, if ok then to / 4096 else from / 4096 + supply))
    {
      var vaddr, left := from, supply;
      ghost var done := 0;
      while vaddr < to
        invariant vaddr == from + 4096 * done <= to && done + left == supply
        invariant View() == old(View()).(mapped := old(mapped) + Pages(from / 4096, from / 4096 + done))
      {
        if left == 0 {
          return false;
        }
        left := left - 1;
        mapped := mapped + {vaddr / 4096};
        vaddr := vaddr + 4096;
        done := done + 1;
      }
      return true;
    }

    method IncrementBrk(increment: nat, supply: nat) returns (r: int)
      requires Wf(View()) && 0 < increment < WORD / 2
      modifies this
      ensures var (b, ok) := Grow(old(View()), increment, supply);
              View() == b && r == if ok then old(brk) else -1
    {
      var oldBreak, newBreak := brk, Wrap(brk + increment);
      var currentTop := PageUp(brk);
      var newTop := PageUp(newBreak);
      WholePages(brk, newBreak);
      if newTop > currentTop {
        var ok := MapPages(currentTop, newTop, supply);
        if !ok {
          return -1;
        }
      }
      brk := newBreak;
      return oldBreak;
    }

    method DecrementBrk(decrement: nat) returns (r: int)
      requires Wf(View()) && decrement <= WORD / 2
      modifies this
      ensures var (b, ok) := Shrink(old(View()), decrement);
              View() == b && r == if ok then old(brk) else -1
    {
      var oldBreak, newBreak := brk, brk - decrement;
      if newBreak < start {
        return -1;
      }
      ghost var done := 0;
      while brk - 4096 >= newBreak
        invariant brk == old(brk) - 4096 * done >= newBreak
        invariant start == old(start) && mapped == old(mapped) - Pages(old(brk) / 4096 - done, old(brk) / 4096)
      {
        var pageAddr := brk - 4096;
        mapped := mapped - {pageAddr / 4096};
        brk := brk - 4096;
        done := done + 1;
      }
      assert done == decrement / 4096;
      return oldBreak;
    }

    method Increment(increment: int, supply: nat) returns (r: int)
      requires Wf(View()) && -(WORD / 2) <= increment < WORD / 2
      modifies this
      ensures var (b, ok) := Sbrk(old(View()), increment, supply);
              View() == b && r == if ok then old(brk) else -1
    {
      if increment == 0 {
        return brk;
      }
      if increment > 0 {
        r := IncrementBrk(increment, supply);
      } else {
        r := DecrementBrk(-increment);
      }
    }
  }

  // ---------------------------------------------------------------- what growth and shrinking keep

  lemma PageUpExact(x: nat)
    requires x + 4095 < WORD
    ensures PageUp(x) == (x + 4095) / 4096 * 4096 && PageUp(x) / 4096 == (x + 4095) / 4096
    ensures x % 4096 == 0 ==> PageUp(x) == x
  {
  }

  /** Without wrap-around, growth needs the pages between the two rounded-up breaks. */
  lemma NeedExact(b: Break, inc: nat)
    requires Wf(b) && b.brk + inc + 4095 < WORD
    ensures var cur, top := (b.brk + 4095) / 4096, (b.brk + inc + 4095) / 4096;
            cur <= top && PageUp(b.brk) / 4096 == cur && Need(b, inc) == top - cur && Wrap(b.brk + inc) == b.brk + inc
  {
    PageUpExact(b.brk);
    PageUpExact(b.brk + inc);
  }

  /** A growth that does not wrap keeps every heap page mapped; a failed one leaves the break alone. */
  lemma GrowCovers(b: Break, inc: nat, supply: nat)
    requires Wf(b) && Covered(b) && b.brk + inc + 4095 < WORD
    ensures var (c, ok) := Grow(b, inc, supply);
            Wf(c) && Covered(c) && c.start == b.start && c.brk == (if ok then b.brk + inc else b.brk)
  {
    NeedExact(b, inc);
  }

  /** When the new break or its rounding passes 2^32, sbrk moves the break and maps nothing. */
  lemma GrowWraps(b: Break, inc: nat, supply: nat)
    requires Wf(b) && inc < WORD / 2 && b.brk + inc + 4095 >= WORD
    ensures Grow(b, inc, supply) == (b.(brk := Wrap(b.brk + inc)), true)
  {
    PageUpExact(b.brk);
    var n := Wrap(b.brk + inc);
    if b.brk + inc < WORD {
      assert PageUp(n) == 0;
    } else {
      assert n == b.brk + inc - WORD < WORD / 2;
      PageUpExact(n);
    }
    assert b.mapped + Pages(PageUp(b.brk) / 4096, PageUp(b.brk) / 4096) == b.mapped;
  }

  lemma GrowNothing(b: Break, supply: nat)
    requires Wf(b)
    ensures Grow(b, 0, supply) == (b, true)
  {
    PageUpExact(b.brk);
    assert b.mapped + Pages(PageUp(b.brk) / 4096, PageUp(b.brk) / 4096) == b.mapped;
  }

  /** So, with pages to spare, growth does what sbrk promises exactly when nothing wraps. Pages left mapped above
      the break by a growth that failed half-way make no difference. */
  lemma GrowSoundIff(b: Break, inc: nat, supply: nat)
    requires Wf(b) && Covered(b) && TopUnmapped(b) && 0 < inc < WORD / 2 && supply >= WORD / 4096
    ensures var (c, ok) := Grow(b, inc, supply);
            ok && (c.brk == b.brk + inc && Covered(c) <==> b.brk + inc + 4095 < WORD)
  {
    if b.brk + inc + 4095 < WORD {
      GrowCovers(b, inc, supply);
      NeedExact(b, inc);
    } else {
      GrowWraps(b, inc, supply);
      if b.brk + inc < WORD {
        var last := WORD / 4096 - 1;
        assert b.start / 4096 <= last < (b.brk + inc + 4095) / 4096;
        assert last !in b.mapped;
      }
    }
  }

  /** Shrinking steps over whole pages only and never goes below the heap start. */
  lemma ShrinkBounds(b: Break, dec: nat)
    requires Wf(b) && dec <= b.brk
    ensures var (c, ok) := Shrink(b, dec);
            Wf(c) && c.start == b.start && b.brk - dec <= c.brk <= b.brk && c.brk % 4096 == b.brk % 4096
            && (ok ==> c.brk < b.brk - dec + 4096) && (ok <==> b.brk - dec >= b.start) && (!ok ==> c == b)
  {
  }

  /** The heap pages stay mapped by a shrink exactly when the break is page-aligned or no whole page goes:
      from an unaligned break the page that still holds the end of the heap is unmapped too. */
  lemma ShrinkCoversIff(b: Break, dec: nat)
    requires Wf(b) && Covered(b) && dec <= b.brk && b.brk - dec >= b.start
    ensures Covered(Shrink(b, dec).0) <==> b.brk % 4096 == 0 || dec < 4096
  {
    var c := Shrink(b, dec).0;
    var q := dec / 4096;
    assert c.brk / 4096 == b.brk / 4096 - q;
    if q > 0 && b.brk % 4096 != 0 {
      var lost := c.brk / 4096;
      assert b.start / 4096 <= lost < (c.brk + 4095) / 4096 && lost !in c.mapped;
    }
  }

  /** Growing by k pages from an aligned break and shrinking by k pages restores the break; it restores the mapped
      pages too exactly if none of those k was left mapped by an earlier growth that failed half-way. */
  lemma ShrinkUndoesGrow(b: Break, k: nat, supply: nat)
    requires Wf(b) && b.brk % 4096 == 0 && b.brk + k * 4096 + 4095 < WORD && k <= supply
    ensures Grow(b, k * 4096, supply).1
    ensures var (d, ok) := Shrink(Grow(b, k * 4096, supply).0, k * 4096);
            ok && d == b.(mapped := b.mapped - Pages(b.brk / 4096, b.brk / 4096 + k))
            && (d == b <==> b.mapped !! Pages(b.brk / 4096, b.brk / 4096 + k))
  {
    NeedExact(b, k * 4096);
    var c := Grow(b, k * 4096, supply).0;
    var p := b.brk / 4096;
    assert c.brk == b.brk + k * 4096 && c.brk / 4096 == p + k && c.mapped == b.mapped + Pages(p, p + k);
    assert b.mapped + Pages(p, p + k) - Pages(p, p + k) == b.mapped - Pages(p, p + k);
    assert b.mapped - Pages(p, p + k) == b.mapped <==> b.mapped !! Pages(p, p + k);
  }

  datatype Call = Call(increment: int, supply: nat)

  /** The calls a client may make: growth that does not wrap, shrinking only from a page-aligned break. */
  ghost predicate Allowed(b: Break, c: Call) {
    if c.increment >= 0 then b.brk + c.increment + 4095 < WORD
    else -c.increment <= b.brk && (b.brk % 4096 == 0 || -c.increment < 4096 || b.brk + c.increment < b.start)
  }

  ghost predicate Run(b: Break, calls: seq<Call>, c: Break)
    decreases |calls|
  {
    if calls == [] then b == c
    else Allowed(b, calls[0]) && Run(Sbrk(b, calls[0].increment, calls[0].supply).0, calls[1..], c)
  }

  /** In every run of sbrk calls, including ones that run out of pages half-way, the heap stays mapped. */
  lemma {:induction false} RunCovers(b: Break, calls: seq<Call>, c: Break)
    requires Wf(b) && Covered(b) && Run(b, calls, c)
    ensures Wf(c) && Covered(c) && c.start == b.start && (TopUnmapped(b) ==> TopUnmapped(c))
    decreases |calls|
  {
    if calls != [] {
      var k := calls[0];
      var d := Sbrk(b, k.increment, k.supply).0;
      if k.increment >= 0 {
        GrowCovers(b, k.increment, k.supply);
      } else if b.brk + k.increment >= b.start {
        ShrinkBounds(b, -k.increment);
        ShrinkCoversIff(b, -k.increment);
      }
      RunCovers(d, calls[1..], c);
    }
  }
}
