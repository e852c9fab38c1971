/** The kernel heap (heap.c, internal.c, allocators.c): kmalloc, kcalloc, krealloc and kfree as in-place
    surgery on the headers stored in memory, proved against the block list of module HeapBlocks.
    Each operation runs with the scheduler locked, so it is one atomic step. */
module Heap {
  import opened ByteStore
  import opened HeapBlocks
  import opened ProgramBreak

  datatype HeapView = HeapView(mem: seq<Byte>, start: nat, brk: nat, blocks: seq<Block>)

  // ---------------------------------------------------------------- the chain of headers in memory

  ghost predicate HeaderOk(m: seq<Byte>, b: Block) {
    b.addr + 8 <= |m| && HeaderAt(m, b.addr) == Header(b.next, 0, if b.free then 1 else 0)
  }

  ghost predicate Stored(m: seq<Byte>, bs: seq<Block>) {
    forall b :: b in bs ==> HeaderOk(m, b)
  }

  ghost predicate EndOk(m: seq<Byte>, e: nat) {
    e + 8 <= |m| && HeaderAt(m, e) == Header(0, 1, 0)
  }

  /** The heap invariant: the blocks tile the heap from its start to the end marker 8 bytes below the break,
      and the `next`/`EOM`/`free` fields found in memory are exactly those of the blocks. */
  ghost predicate Inv(v: HeapView) {
    && |v.mem| == WORD
    && KERNEL_BASE <= v.start && v.start + 16 <= v.brk && v.brk + 4095 < WORD
    && Tiled(v.blocks, v.start, v.brk - 8)
    && Stored(v.mem, v.blocks) && EndOk(v.mem, v.brk - 8)
  }

  /** What is written inside [Cut(i), Cut(j)) touches neither the headers nor the contents of other blocks. */
  lemma StoredReplace(m1: seq<Byte>, m2: seq<Byte>, bs: seq<Block>, s: nat, e: nat, i: nat, j: nat, mid: seq<Block>)
    requires Tiled(bs, s, e) && i <= j <= |bs| && Stored(m1, bs) && Stored(m2, mid)
    requires Within(m1, m2, Cut(bs, i, e), Cut(bs, j, e))
    ensures Stored(m2, Replace(bs, i, j, mid))
    ensures EndOk(m1, e) ==> EndOk(m2, e)
    ensures forall b :: b in bs[..i] || b in bs[j..] ==> Same(m1, m2, b.addr, b.next)
  {
    TiledAt(bs, s, e, i);
    TiledAt(bs, s, e, j);
    TiledRange(bs[..i], s, Cut(bs, i, e));
    TiledRange(bs[j..], Cut(bs, j, e), e);
    forall b | b in bs[..i] || b in bs[j..] ensures HeaderOk(m2, b) && Same(m1, m2, b.addr, b.next) {
      assert b in bs;
      assert HeaderOk(m1, b);
    }
  }

  lemma HeaderFrame(m1: seq<Byte>, m2: seq<Byte>, lo: int, hi: int, a: nat)
    requires Within(m1, m2, lo, hi) && a + 8 <= |m1| && (a + 8 <= lo || hi <= a)
    ensures HeaderAt(m2, a) == HeaderAt(m1, a)
  {
  }

  /** The invariant after the blocks [i, j) were rewritten in place into `mid`. */
  lemma Rewritten(v: HeapView, m: seq<Byte>, i: nat, j: nat, mid: seq<Block>)
    requires Inv(v) && i <= j <= |v.blocks|
    requires Within(v.mem, m, Cut(v.blocks, i, v.brk - 8), Cut(v.blocks, j, v.brk - 8))
    requires Stored(m, mid) && Tiled(mid, Cut(v.blocks, i, v.brk - 8), Cut(v.blocks, j, v.brk - 8))
    ensures Inv(v.(mem := m, blocks := Replace(v.blocks, i, j, mid)))
    ensures forall b :: b in v.blocks[..i] || b in v.blocks[j..] ==> Same(v.mem, m, b.addr, b.next)
  {
    StoredReplace(v.mem, m, v.blocks, v.start, v.brk - 8, i, j, mid);
    ReplaceTiled(v.blocks, v.start, v.brk - 8, i, j, mid);
  }

  /** The two header writes of heap_block_split. */
  lemma SplitWrites(b: Block, size: nat, m0: seq<Byte>, m1: seq<Byte>, m2: seq<Byte>)
    requires HeaderOk(m0, b) && b.addr + 8 <= b.next && b.next + 8 <= |m0| && size <= Align(size)
    requires Space(b) >= Align(size) + 24
    requires var cut := b.addr + 8 + size;
             Within(m0, m1, cut, cut + 8) && HeaderAt(m1, cut) == Header(b.next, 0, 1)
             && Within(m1, m2, b.addr, b.addr + 8) && HeaderAt(m2, b.addr) == HeaderAt(m1, b.addr).(next := cut)
    ensures Stored(m2, Pieces(b, size, Align(size)))
    ensures Within(m0, m2, b.addr, b.next) && Same(m0, m2, b.addr + 8, b.addr + 8 + size)
  {
    var cut := b.addr + 8 + size;
    HeaderFrame(m0, m1, cut, cut + 8, b.addr);
    HeaderFrame(m1, m2, b.addr, b.addr + 8, cut);
  }

  // ---------------------------------------------------------------- first fit

  ghost function FirstFit(bs: seq<Block>, want: nat): (k: nat)
    ensures IsFirstFit(bs, want, k)
  {
    if bs == [] || Fits(bs[0], want) then 0 else
      var k := FirstFit(bs[1..], want);
      assert bs[..k + 1] == [bs[0]] + bs[1..][..k];
      k + 1
  }

  lemma FirstFitUnique(bs: seq<Block>, want: nat, k: nat)
    requires IsFirstFit(bs, want, k)
    ensures k == FirstFit(bs, want)
  {
  }

  // ---------------------------------------------------------------- what each operation does

  /** Nothing in a block that is in use before and after has changed. */
  ghost predicate Isolated(v: HeapView, w: HeapView) {
    forall b :: b in Used(v.blocks) && b in Used(w.blocks) ==> Same(v.mem, w.mem, b.addr + 8, b.next)
  }

  /** What sbrk is asked for: a block with its header, cut to 32 bits and read as a signed number. */
  function Asked(want: nat): int {
    var x := Wrap(want + 8);
    if x < WORD / 2 then x else x - WORD
  }

  /** The break can move up by a block of `want` bytes and its header without wrapping around. */
  predicate Growable(brk: nat, want: nat) {
    brk + want + 8 + 4095 < WORD
  }

  /** The increment is negative in 32 bits and would take the break below the heap start, which sbrk refuses. */
  predicate Refused(start: nat, brk: nat, want: nat) {
    WORD / 2 <= want + 8 < WORD && brk + want + 8 < WORD + start
  }

  /** kmalloc finds a block, can extend the break, or is rightly refused. */
  ghost predicate NoWrap(v: HeapView, size: nat) {
    FirstFit(v.blocks, Align(size)) < |v.blocks| || Growable(v.brk, Align(size)) || Refused(v.start, v.brk, Align(size))
  }

  /** Growing by a block of `want` bytes and its header needs more pages than there are. */
  predicate Short(brk: nat, want: nat, supply: nat) {
    supply < (brk + want + 8 + 4095) / 4096 - (brk + 4095) / 4096
  }

  /** kmalloc has to return NULL: no block fits, and sbrk refuses or runs out of pages. */
  ghost predicate Denied(v: HeapView, size: nat, supply: nat) {
    var want := Align(size);
    FirstFit(v.blocks, want) >= |v.blocks| && (Refused(v.start, v.brk, want) || Short(v.brk, want, supply))
  }

  ghost predicate MallocStep(v: HeapView, size: nat, w: HeapView, r: nat) {
    var want := Align(size);
    var k := FirstFit(v.blocks, want);
    && w.start == v.start
    && Isolated(v, w)
    && if k < |v.blocks| then
         r == v.blocks[k].addr + 8 && w.brk == v.brk && w.blocks == Reserve(v.blocks, k, want)
       else if r == 0 then
         w == v
       else
         Growable(v.brk, want) && r == v.brk >= 8 && w.brk == v.brk + want + 8 && w.blocks == v.blocks + [Block(v.brk - 8, v.brk + want, false)]
  }

  /** `p` is a pointer handed out by the allocator: the byte after the header of block `i`. */
  ghost predicate PointsTo(v: HeapView, p: nat, i: nat) {
    i < |v.blocks| && p == v.blocks[i].addr + 8
  }

  ghost predicate FreeStep(v: HeapView, i: nat, w: HeapView)
    requires i < |v.blocks|
  {
    w.start == v.start && w.brk == v.brk && Isolated(v, w) && w.blocks == Release(v.blocks, i)
  }

  ghost predicate CallocStep(v: HeapView, bytes: nat, w: HeapView, r: nat) {
    && (exists u :: MallocStep(v, bytes, u, r) && w == u.(mem := w.mem) && (r == 0 ==> w == u))
    && Isolated(v, w)
    && (r != 0 ==> forall k :: r <= k < r + bytes && k < |w.mem| ==> w.mem[k] == 0)
  }

  ghost predicate Shape(v: HeapView) {
    v.brk >= 8 && Tiled(v.blocks, v.start, v.brk - 8)
  }

  /** A moving krealloc of block `b`: `u` after the allocation, `x` after the copy, `b` then being block `j`. */
  ghost predicate MovedVia(v: HeapView, b: Block, size: nat, u: HeapView, x: HeapView, j: nat, w: HeapView, r: nat) {
    && MallocStep(v, size, u, r)
    && Shape(x) && x == u.(mem := x.mem)
    && j < |x.blocks| && x.blocks[j] == b && FreeStep(x, j, w)
  }

  /** The new place of a block that had to move: a fresh allocation, filled from the old block, which is freed. */
  ghost predicate Moved(v: HeapView, i: nat, size: nat, w: HeapView, r: nat)
    requires i < |v.blocks|
  {
    var b := v.blocks[i];
    && (exists u, x, j :: MovedVia(v, b, size, u, x, j, w, r))
    && Carried(v.mem, w.mem, r, b.addr + 8, Space(b))
  }

  /** krealloc of the used block `i` to `size` > 0 bytes. */
  ghost predicate ReallocStep(v: HeapView, i: nat, size: nat, w: HeapView, r: nat)
    requires i < |v.blocks|
  {
    var b := v.blocks[i];
    && Isolated(v, w)
    && if Space(b) >= size then
         r == b.addr + 8 && w.start == v.start && w.brk == v.brk && w.blocks == Split(v.blocks, i, size)
         && Same(v.mem, w.mem, r, r + size)
       else if r == 0 then
         w == v
       else
         Moved(v, i, size, w, r)
  }

  /** A change inside blocks [i, j) that are free, or no longer in use afterwards, leaves the rest isolated. */
  lemma IsolatedOutside(v: HeapView, w: HeapView, i: nat, j: nat)
    requires Inv(v) && i <= j <= |v.blocks|
    requires Within(v.mem, w.mem, Cut(v.blocks, i, v.brk - 8), Cut(v.blocks, j, v.brk - 8))
    requires Used(v.blocks[i..j]) !! Used(w.blocks)
    ensures Isolated(v, w)
  {
    StoredReplace(v.mem, w.mem, v.blocks, v.start, v.brk - 8, i, j, []);
    UsedReplace(v.blocks, i, j, []);
  }

  // ---------------------------------------------------------------- the allocator

  function ReadHeader(mem: array<Byte>, a: nat): Header
    requires a + 8 <= mem.Length
    reads mem
    ensures ReadHeader(mem, a) == HeaderAt(mem[..], a)
  {
    Header(LittleEndian(mem[a], mem[a + 1], mem[a + 2], mem[a + 3]), mem[a + 4], mem[a + 5])
  }

  /** internal_heap_block_get_available_space */
  function AvailableSpace(mem: array<Byte>, a: nat): int
    requires a + 8 <= mem.Length
    reads mem
  {
    var h := ReadHeader(mem, a);
    if h.eom != 0 then 0 else if h.next >= a + 8 then h.next - a - 8 else WORD + h.next - a - 8
  }

  /** Sets the `free` byte at `node` and drops a free successor out of the chain. */
  method MarkAndMerge(mem: array<Byte>, node: nat)
    requires mem.Length == WORD && node + 8 <= WORD
    requires var next := ReadHeader(mem, node).next; node + 8 <= next && next + 8 <= WORD
    modifies mem
    ensures Within(old(mem[..]), mem[..], node, node + 8)
    ensures var h := HeaderAt(old(mem[..]), node);
            var g := HeaderAt(old(mem[..]), h.next);
            HeaderAt(mem[..], node) == Header(if g.free != 0 then g.next else h.next, h.eom, 1)
  {
    WriteFree(mem, node, 1);
    var next := ReadHeader(mem, node).next;
    HeaderFrame(old(mem[..]), mem[..], node, node + 8, next);
    if ReadHeader(mem, next).free != 0 {
      WriteNext(mem, node, ReadHeader(mem, next).next);
    }
  }

  function HeapStart(kernelEnd: nat): nat {
    if kernelEnd % 4096 != 0 then (kernelEnd + 4096) / 4096 * 4096 else kernelEnd
  }

  lemma HeapStartAligned(kernelEnd: nat)
    requires HeapStart(kernelEnd) < KERNEL_BASE + 0x40_0000
    ensures HeapStart(kernelEnd) % 4096 == 0 && kernelEnd <= HeapStart(kernelEnd) < kernelEnd + 4096
    ensures HeapStart(kernelEnd) <= KERNEL_BASE + 0x3F_F000
  {
  }

  lemma InitialBreak(kernelEnd: nat, mapped: set<nat>)
    requires forall p :: KERNEL_BASE / 4096 <= p < (KERNEL_BASE + 0x40_0000) / 4096 ==> p in mapped
    requires KERNEL_BASE <= kernelEnd && HeapStart(kernelEnd) < KERNEL_BASE + 0x40_0000
    ensures var b := Break(HeapStart(kernelEnd), KERNEL_BASE + 0x40_0000, mapped);
            Wf(b) && Covered(b) && b.start + 16 <= b.brk
  {
    HeapStartAligned(kernelEnd);
  }

  /** The two headers heap_init writes make up a well-formed heap. */
  lemma InitialInv(m1: seq<Byte>, m2: seq<Byte>, start: nat, brk: nat)
    requires |m2| == WORD && KERNEL_BASE <= start && start + 16 <= brk && brk + 4095 < WORD
    requires EndOk(m1, brk - 8) && Within(m1, m2, start, start + 8) && HeaderAt(m2, start) == Header(brk - 8, 0, 1)
    ensures Inv(HeapView(m2, start, brk, [Block(start, brk - 8, true)]))
  {
    var bs := [Block(start, brk - 8, true)];
    assert bs[1..] == [];
    HeaderFrame(m1, m2, start, start + 8, brk - 8);
  }

  /** The header writes that turn the old end marker into a used block and place a new end marker. */
  method WriteExtension(mem: array<Byte>, node: nat, newEnd: nat)
    requires mem.Length == WORD && node + 8 <= newEnd && newEnd + 8 <= WORD
    modifies mem
    ensures Within(old(mem[..]), mem[..], node, newEnd + 8)
    ensures HeaderAt(mem[..], node) == Header(newEnd, 0, 0) && HeaderAt(mem[..], newEnd) == Header(0, 1, 0)
  {
    WriteHeader(mem, node, 0, 0, newEnd);
    ghost var m1 := mem[..];
    WriteHeader(mem, newEnd, 1, 0, 0);
    ghost var m2 := mem[..];
    HeaderFrame(m1, m2, newEnd, newEnd + 8, node);
    WriteNext(mem, node, newEnd);
    HeaderFrame(m2, mem[..], node, node + 8, newEnd);
  }

  lemma Extended(v: HeapView, m: seq<Byte>, brk: nat)
    requires Inv(v) && v.brk + 8 <= brk && brk + 4095 < WORD
    requires Within(v.mem, m, v.brk - 8, brk) && HeaderAt(m, v.brk - 8) == Header(brk - 8, 0, 0) && EndOk(m, brk - 8)
    ensures var w := HeapView(m, v.start, brk, v.blocks + [Block(v.brk - 8, brk - 8, false)]);
            Inv(w) && Isolated(v, w)
  {
    var b := Block(v.brk - 8, brk - 8, false);
    assert [b][1..] == [];
    TiledAppend(v.blocks, [b], v.start, v.brk - 8, brk - 8);
    OlderKept(v.mem, m, v.blocks, v.start, v.brk - 8, brk);
  }

  /** Writing above the end of the blocks touches none of them. */
  lemma OlderKept(m1: seq<Byte>, m2: seq<Byte>, bs: seq<Block>, s: nat, e: nat, hi: nat)
    requires Tiled(bs, s, e) && Stored(m1, bs) && Within(m1, m2, e, hi)
    ensures Stored(m2, bs) && forall c :: c in bs ==> Same(m1, m2, c.addr, c.next)
  {
    TiledRange(bs, s, e);
    forall c | c in bs ensures HeaderOk(m2, c) && Same(m1, m2, c.addr, c.next) {
      assert HeaderOk(m1, c);
      HeaderFrame(m1, m2, e, hi, c.addr);
    }
  }

  /** Marking the first piece used turns a split into a reservation. */
  lemma SplitThenUse(bs: seq<Block>, i: nat, want: nat)
    requires i < |bs| && Align(want) == want
    ensures var cs := Split(bs, i, want);
            i < |cs| && cs[i] == Pieces(bs[i], want, want)[0]
            && Replace(cs, i, i + 1, [cs[i].(free := false)]) == Reserve(bs, i, want)
  {
  }

  /** The header write that completes a reservation: `v` before the split, `v1` after it, `m` at the end. */
  lemma Taken(v: HeapView, v1: HeapView, m: seq<Byte>, i: nat, want: nat)
    requires Inv(v) && Inv(v1) && i < |v.blocks| && v.blocks[i].free && Align(want) == want
    requires v1 == v.(mem := v1.mem, blocks := Split(v.blocks, i, want))
    requires Within(v.mem, v1.mem, v.blocks[i].addr, v.blocks[i].next)
    requires var a := v.blocks[i].addr;
             a + 8 <= |m| == |v1.mem| && Within(v1.mem, m, a, a + 8) && HeaderAt(m, a) == HeaderAt(v1.mem, a).(free := 0)
    ensures var w := v.(mem := m, blocks := Reserve(v.blocks, i, want)); Inv(w) && Isolated(v, w)
  {
    SplitThenUse(v.blocks, i, want);
    var b := v1.blocks[i];
    assert HeaderOk(v1.mem, b);
    var mid := [b.(free := false)];
    assert mid[1..] == [];
    TiledApart(v1.blocks, v.start, v.brk - 8, i);
    Rewritten(v1, m, i, i + 1, mid);
    TiledApart(v.blocks, v.start, v.brk - 8, i);
    assert v.blocks[i..i + 1] == [v.blocks[i]];
    IsolatedOutside(v, v.(mem := m, blocks := Reserve(v.blocks, i, want)), i, i + 1);
  }

  /** The list after kfree's first half: block `i` is free and has swallowed a free successor. */
  function ForwardMerged(bs: seq<Block>, i: nat): seq<Block>
    requires i < |bs|
  {
    var hi := ReleaseTo(bs, i);
    Replace(bs, i, hi, [Block(bs[i].addr, bs[hi - 1].next, true)])
  }

  /** The header writes of kfree's first half. */
  lemma Forward(v: HeapView, m: seq<Byte>, i: nat)
    requires Inv(v) && i < |v.blocks|
    requires var a, hi := v.blocks[i].addr, ReleaseTo(v.blocks, i);
             a + 8 <= |m| && Within(v.mem, m, a, a + 8) && HeaderAt(m, a) == Header(v.blocks[hi - 1].next, 0, 1)
    ensures Inv(v.(mem := m, blocks := ForwardMerged(v.blocks, i)))
  {
    var hi := ReleaseTo(v.blocks, i);
    var b := Block(v.blocks[i].addr, v.blocks[hi - 1].next, true);
    TiledApart(v.blocks, v.start, v.brk - 8, i);
    if hi == i + 2 { TiledApart(v.blocks, v.start, v.brk - 8, i + 1); }
    assert [b][1..] == [];
    Rewritten(v, m, i, hi, [b]);
  }

  lemma FirstBlock(bs: seq<Block>, s: nat, e: nat, i: nat)
    requires Tiled(bs, s, e) && i < |bs|
    ensures bs[0].addr == s && (bs[i].addr == s <==> i == 0)
  {
    TiledApart(bs, s, e, 0);
    if i > 0 { assert bs[i] == bs[1..][i - 1]; }
  }

  /** Following `next` from block `j` reaches block `i` exactly when `j` is its predecessor. */
  lemma OnlyParent(bs: seq<Block>, s: nat, e: nat, j: nat, i: nat)
    requires Tiled(bs, s, e) && j < i < |bs|
    ensures bs[j].next == bs[i].addr <==> j + 1 == i
  {
    TiledApart(bs, s, e, j);
    TiledApart(bs, s, e, j + 1);
    if j + 1 < i { assert bs[i] == bs[j + 2..][i - j - 2]; }
  }

  /** Absorbing into a free predecessor completes the release. */
  lemma ReleaseInTwo(bs: seq<Block>, i: nat, hi: nat)
    requires i < |bs| && hi == ReleaseTo(bs, i)
    ensures var mid := [Block(bs[i].addr, bs[hi - 1].next, true)];
            var cs := Replace(bs, i, hi, mid);
            && i < |cs| && cs[i] == mid[0]
            && (i > 0 ==> cs[i - 1] == bs[i - 1])
            && Release(bs, i) == if i > 0 && bs[i - 1].free
                                 then Replace(cs, i - 1, i + 1, [Block(bs[i - 1].addr, cs[i].next, true)]) else cs
  {
    var cs := Replace(bs, i, hi, [Block(bs[i].addr, bs[hi - 1].next, true)]);
    assert cs[i + 1..] == bs[hi..];
    if i > 0 { assert cs[..i - 1] == bs[..i - 1]; }
  }

  lemma Absorbed(u: HeapView, m: seq<Byte>, i: nat)
    requires Inv(u) && 0 < i < |u.blocks| && u.blocks[i - 1].free && u.blocks[i].free
    requires var a := u.blocks[i - 1].addr;
             a + 8 <= |m| && Within(u.mem, m, a, a + 8) && HeaderAt(m, a) == HeaderAt(u.mem, a).(next := u.blocks[i].next)
    ensures Inv(u.(mem := m, blocks := Replace(u.blocks, i - 1, i + 1, [Block(u.blocks[i - 1].addr, u.blocks[i].next, true)])))
  {
    TiledApart(u.blocks, u.start, u.brk - 8, i - 1);
    TiledApart(u.blocks, u.start, u.brk - 8, i);
    assert HeaderOk(u.mem, u.blocks[i - 1]);
    var b := Block(u.blocks[i - 1].addr, u.blocks[i].next, true);
    assert [b][1..] == [];
    Rewritten(u, m, i - 1, i + 1, [b]);
  }

  lemma FreedIsolated(v: HeapView, w: HeapView, i: nat)
    requires Inv(v) && i < |v.blocks| && w.blocks == Release(v.blocks, i)
    requires Within(v.mem, w.mem, v.blocks[ReleaseFrom(v.blocks, i)].addr, v.blocks[i].addr + 8)
    ensures Isolated(v, w)
  {
    ReleaseUsed(v.blocks, v.start, v.brk - 8, i);
    UsedNear(v.blocks, i);
    var hi := ReleaseTo(v.blocks, i);
    TiledApart(v.blocks, v.start, v.brk - 8, i);
    if hi > i + 1 { TiledApart(v.blocks, v.start, v.brk - 8, i + 1); }
    IsolatedOutside(v, w, ReleaseFrom(v.blocks, i), hi);
  }

  /** The heap `u` after kfree's forward merge of block `i` of `v`. */
  ghost predicate HalfFreed(v: HeapView, u: HeapView, i: nat)
    requires i < |v.blocks|
  {
    && u == v.(mem := u.mem, blocks := ForwardMerged(v.blocks, i))
    && Within(v.mem, u.mem, v.blocks[i].addr, v.blocks[i].addr + 8)
  }

  lemma FreedAlone(v: HeapView, u: HeapView, i: nat)
    requires Inv(v) && Inv(u) && i < |v.blocks| && HalfFreed(v, u, i) && (i > 0 ==> !v.blocks[i - 1].free)
    ensures u.blocks == Release(v.blocks, i) && FreeStep(v, i, u)
  {
    FreedIsolated(v, u, i);
  }

  lemma FreedAbsorbed(v: HeapView, u: HeapView, m: seq<Byte>, i: nat)
    requires Inv(v) && Inv(u) && 0 < i < |v.blocks| && i < |u.blocks| && HalfFreed(v, u, i) && v.blocks[i - 1].free
    requires var a := v.blocks[i - 1].addr;
             a + 8 <= |m| && Within(u.mem, m, a, a + 8) && HeaderAt(m, a) == HeaderAt(u.mem, a).(next := u.blocks[i].next)
    ensures var w := v.(mem := m, blocks := Release(v.blocks, i)); Inv(w) && FreeStep(v, i, w)
  {
    FreedInv(v, u, m, i);
    TiledApart(v.blocks, v.start, v.brk - 8, i - 1);
    FreedIsolated(v, v.(mem := m, blocks := Release(v.blocks, i)), i);
  }

  lemma FreedInv(v: HeapView, u: HeapView, m: seq<Byte>, i: nat)
    requires Inv(u) && 0 < i < |v.blocks| && i < |u.blocks| && HalfFreed(v, u, i) && v.blocks[i - 1].free
    requires var a := v.blocks[i - 1].addr;
             a + 8 <= |m| && Within(u.mem, m, a, a + 8) && HeaderAt(m, a) == HeaderAt(u.mem, a).(next := u.blocks[i].next)
    ensures Inv(v.(mem := m, blocks := Release(v.blocks, i)))
  {
    ReleaseInTwo(v.blocks, i, ReleaseTo(v.blocks, i));
    Absorbed(u, m, i);
  }

  /** The block a kmalloc of `size` bytes hands out. */
  ghost function NewBlock(v: HeapView, size: nat): Block {
    var k, want := FirstFit(v.blocks, Align(size)), Align(size);
    if k < |v.blocks| then ReservedPieces(v.blocks[k], want)[0] else Block(if v.brk < 8 then 0 else v.brk - 8, v.brk + want, false)
  }

  /** A successful kmalloc adds exactly one used block: a new one, where the result points, large enough. */
  lemma MallocAdds(v: HeapView, size: nat, w: HeapView, r: nat)
    requires v.brk >= 8 && Tiled(v.blocks, v.start, v.brk - 8) && MallocStep(v, size, w, r) && r != 0
    ensures var b := NewBlock(v, size);
            && Used(w.blocks) == Used(v.blocks) + {b} && b !in Used(v.blocks)
            && r == b.addr + 8 && Space(b) >= Align(size)
  {
    var k, want := FirstFit(v.blocks, Align(size)), Align(size);
    TiledRange(v.blocks, v.start, v.brk - 8);
    if k < |v.blocks| {
      TiledApart(v.blocks, v.start, v.brk - 8, k);
      ReserveTiled(v.blocks, v.start, v.brk - 8, k, want);
    }
  }

  /** Only the block itself notices when its contents are written. */
  lemma ContentsWritten(v: HeapView, m: seq<Byte>, b: Block)
    requires Inv(v) && b in v.blocks && Within(v.mem, m, b.addr + 8, b.next)
    ensures Inv(v.(mem := m))
    ensures forall c :: c in v.blocks && c != b ==> Same(v.mem, m, c.addr, c.next)
  {
    var i :| 0 <= i < |v.blocks| && v.blocks[i] == b;
    TiledApart(v.blocks, v.start, v.brk - 8, i);
    assert HeaderOk(v.mem, b);
    HeaderFrame(v.mem, m, b.addr + 8, b.next, b.addr);
    assert HeaderOk(m, b);
    Rewritten(v, m, i, i + 1, [b]);
    assert v.blocks == Replace(v.blocks, i, i + 1, [b]);
  }

  /** The new block can hold what is about to be written into it. */
  lemma MallocRoom(v: HeapView, size: nat, w: HeapView, r: nat)
    requires Inv(v) && Inv(w) && size <= WORD - 8 && MallocStep(v, size, w, r) && r != 0
    ensures var b := NewBlock(v, size); b in w.blocks && r == b.addr + 8 && r + size <= b.next <= WORD
  {
    MallocAdds(v, size, w, r);
    AlignExact(size);
    assert NewBlock(v, size) in Used(w.blocks);
    TiledRange(w.blocks, w.start, w.brk - 8);
  }

  /** Filling the new block disturbs no block that was in use before. */
  lemma NewBlockFilled(v: HeapView, size: nat, w: HeapView, m: seq<Byte>, r: nat)
    requires Inv(v) && Inv(w) && MallocStep(v, size, w, r) && r != 0
    requires NewBlock(v, size) in w.blocks && Within(w.mem, m, r, NewBlock(v, size).next)
    ensures Inv(w.(mem := m)) && Isolated(v, w.(mem := m))
    ensures forall c :: c in Used(v.blocks) ==> Same(v.mem, m, c.addr + 8, c.next)
  {
    MallocAdds(v, size, w, r);
    ContentsWritten(w, m, NewBlock(v, size));
    forall c | c in Used(v.blocks) ensures Same(v.mem, m, c.addr + 8, c.next) {
      assert c in Used(w.blocks) && Same(v.mem, w.mem, c.addr + 8, c.next) && Same(w.mem, m, c.addr, c.next);
    }
  }

  /** Cutting a used block in place leaves every other used block alone. */
  lemma ShrunkIsolated(v: HeapView, w: HeapView, i: nat, size: nat)
    requires Inv(v) && i < |v.blocks| && !v.blocks[i].free && size <= Space(v.blocks[i]) && size <= Align(size)
    requires w.blocks == Split(v.blocks, i, size) && Within(v.mem, w.mem, v.blocks[i].addr, v.blocks[i].next)
    requires Pieces(v.blocks[i], size, Align(size)) == [v.blocks[i]] ==> w.mem == v.mem
    ensures Isolated(v, w)
  {
    if w.mem != v.mem {
      TiledApart(v.blocks, v.start, v.brk - 8, i);
      SplitTiled(v.blocks, v.start, v.brk - 8, i, size);
      assert v.blocks[i..i + 1] == [v.blocks[i]];
      IsolatedOutside(v, w, i, i + 1);
    }
  }

  /** krealloc after the copy: `u` is the heap after the allocation, `x` after the memmove. */
  ghost predicate Copied(v: HeapView, b: Block, size: nat, u: HeapView, x: HeapView, r: nat) {
    var n := NewBlock(v, size);
    && MallocStep(v, size, u, r) && x == u.(mem := x.mem)
    && b in Used(v.blocks) && Used(x.blocks) == Used(v.blocks) + {n} && n !in Used(v.blocks)
    && r == n.addr + 8 && Space(b) <= Space(n)
    && (forall c :: c in Used(v.blocks) ==> Same(v.mem, x.mem, c.addr + 8, c.next))
    && Carried(v.mem, x.mem, r, b.addr + 8, Space(b))
  }

  lemma CopyDone(v: HeapView, b: Block, size: nat, u: HeapView, m: seq<Byte>, r: nat)
    requires Inv(v) && Inv(u) && b in Used(v.blocks) && size <= WORD - 8 && Space(b) < size
    requires MallocStep(v, size, u, r) && r != 0
    requires Within(u.mem, m, r, r + Space(b)) && Carried(u.mem, m, r, b.addr + 8, Space(b))
    ensures Inv(u.(mem := m)) && Copied(v, b, size, u, u.(mem := m), r)
  {
    MallocAdds(v, size, u, r);
    MallocRoom(v, size, u, r);
    NewBlockFilled(v, size, u, m, r);
    assert Same(v.mem, u.mem, b.addr + 8, b.next);
  }

  /** Freeing the original leaves every other used block alone ... */
  lemma OriginalFreed(v: HeapView, b: Block, n: Block, x: HeapView, j: nat, w: HeapView)
    requires Inv(x) && j < |x.blocks| && x.blocks[j] == b && FreeStep(x, j, w)
    requires b in Used(v.blocks) && Used(x.blocks) == Used(v.blocks) + {n} && n !in Used(v.blocks)
    requires forall c :: c in Used(v.blocks) ==> Same(v.mem, x.mem, c.addr + 8, c.next)
    ensures Isolated(v, w) && n in Used(w.blocks)
  {
    ReleaseUsed(x.blocks, x.start, x.brk - 8, j);
    forall c | c in Used(v.blocks) && c in Used(w.blocks) ensures Same(v.mem, w.mem, c.addr + 8, c.next) {
      assert c in Used(x.blocks);
    }
  }

  /** ... and so the copy survives. */
  lemma CopySurvives(v: HeapView, b: Block, size: nat, u: HeapView, x: HeapView, w: HeapView, r: nat)
    requires Copied(v, b, size, u, x, r) && Isolated(x, w) && NewBlock(v, size) in Used(w.blocks)
    ensures Carried(v.mem, w.mem, r, b.addr + 8, Space(b))
  {
    var n := NewBlock(v, size);
    assert n in Used(x.blocks);
    assert Same(x.mem, w.mem, n.addr + 8, n.next);
  }

  lemma MoveDone(v: HeapView, i: nat, size: nat, u: HeapView, x: HeapView, j: nat, w: HeapView, r: nat)
    requires i < |v.blocks| && Space(v.blocks[i]) < size && r != 0
    requires Inv(x) && Copied(v, v.blocks[i], size, u, x, r) && j < |x.blocks| && x.blocks[j] == v.blocks[i] && FreeStep(x, j, w)
    ensures ReallocStep(v, i, size, w, r)
  {
    OriginalFreed(v, v.blocks[i], NewBlock(v, size), x, j, w);
    CopySurvives(v, v.blocks[i], size, u, x, w, r);
    assert MovedVia(v, v.blocks[i], size, u, x, j, w, r);
  }

  /** An aligned size stays as it is. */
  lemma AlignTwice(size: nat)
    requires size < WORD
    ensures Align(Align(size)) == Align(size)
  {
    AlignExact(size);
  }

  lemma MallocTook(v: HeapView, size: nat, i: nat, w: HeapView, r: nat)
    requires IsFirstFit(v.blocks, Align(size), i) && i < |v.blocks| && r == v.blocks[i].addr + 8
    requires w.start == v.start && w.brk == v.brk && w.blocks == Reserve(v.blocks, i, Align(size)) && Isolated(v, w)
    ensures MallocStep(v, size, w, r)
  {
    FirstFitUnique(v.blocks, Align(size), i);
  }

  lemma MallocExtended(v: HeapView, size: nat, w: HeapView, r: nat)
    requires v.brk >= 8 && IsFirstFit(v.blocks, Align(size), |v.blocks|) && w.start == v.start && Isolated(v, w)
    requires if r == 0 then w == v else
      Growable(v.brk, Align(size)) && r == v.brk && w.brk == v.brk + Align(size) + 8 && w.blocks == v.blocks + [Block(v.brk - 8, v.brk + Align(size), false)]
    ensures MallocStep(v, size, w, r)
  {
    FirstFitUnique(v.blocks, Align(size), |v.blocks|);
  }

  lemma WrapFree(v: HeapView, size: nat)
    requires NoWrap(v, size) && IsFirstFit(v.blocks, Align(size), |v.blocks|)
    ensures Growable(v.brk, Align(size)) || Refused(v.start, v.brk, Align(size))
  {
    FirstFitUnique(v.blocks, Align(size), |v.blocks|);
  }

  /** sbrk as kmalloc calls it: the break moves up by exactly the block and its header, or not at all. */
  lemma AskedFor(b: Break, want: nat, supply: nat)
    requires Wf(b) && Covered(b) && (Growable(b.brk, want) || Refused(b.start, b.brk, want))
    ensures -(WORD / 2) <= Asked(want) < WORD / 2 && -Asked(want) <= b.brk
    ensures var (c, ok) := Sbrk(b, Asked(want), supply);
            Wf(c) && Covered(c) && c.start == b.start && c.brk == (if ok then b.brk + want + 8 else b.brk)
            && (ok <==> !Refused(b.start, b.brk, want) && !Short(b.brk, want, supply)) && (ok ==> Growable(b.brk, want))
  {
    if Growable(b.brk, want) {
      GrowCovers(b, want + 8, supply);
      NeedExact(b, want + 8);
    }
  }

  // ---------------------------------------------------------------- when kmalloc keeps its promise

  /** The growth for a block of `want` bytes is honest: the break moves by that much over mapped pages, or stays. */
  ghost predicate Honest(b: Break, want: nat, supply: nat)
    requires -Asked(want) <= b.brk
  {
    var (c, ok) := Sbrk(b, Asked(want), supply);
    Covered(c) && c.brk == if ok then b.brk + want + 8 else b.brk
  }

  lemma HonestIff(b: Break, want: nat, supply: nat)
    requires Wf(b) && Covered(b) && TopUnmapped(b) && want <= WORD - 8 && supply >= WORD / 4096
    ensures -Asked(want) <= b.brk
    ensures Honest(b, want, supply) <==> Growable(b.brk, want) || Refused(b.start, b.brk, want)
    ensures Honest(b, want, supply) ==> (Sbrk(b, Asked(want), supply).1 <==> Growable(b.brk, want))
  {
    if want + 8 < WORD / 2 {
      GrowSoundIff(b, want + 8, supply);
    } else if want + 8 < WORD {
      ShrinkBounds(b, WORD - want - 8);
    } else {
      GrowNothing(b, supply);
    }
  }

  /** kmalloc does right by its caller: NULL and everything as before, or a block of at least `size` mapped bytes. */
  ghost predicate Serves(v: HeapView, b: Break, bytes: nat, size: nat, supply: nat)
    requires -Asked(Align(bytes)) <= b.brk
  {
    var k, want := FirstFit(v.blocks, Align(bytes)), Align(bytes);
    if k < |v.blocks| then Space(ReservedPieces(v.blocks[k], want)[0]) >= size
    else Honest(b, want, supply) && (Sbrk(b, Asked(want), supply).1 ==> want >= size)
  }

  lemma ServedSpace(v: HeapView, size: nat)
    requires Inv(v) && size < WORD && FirstFit(v.blocks, Align(size)) < |v.blocks|
    ensures var k := FirstFit(v.blocks, Align(size));
            Align(size) <= Space(ReservedPieces(v.blocks[k], Align(size))[0]) < WORD - 8
  {
    var k, want := FirstFit(v.blocks, Align(size)), Align(size);
    TiledApart(v.blocks, v.start, v.brk - 8, k);
    PiecesTiled(v.blocks[k], want, want);
  }

  lemma KmallocSoundIff(v: HeapView, b: Break, size: nat, supply: nat)
    requires Inv(v) && b.start == v.start && b.brk == v.brk && size < WORD
    requires Wf(b) && Covered(b) && TopUnmapped(b) && supply >= WORD / 4096
    ensures Align(size) <= WORD - 8 && -Asked(Align(size)) <= b.brk
    ensures Serves(v, b, size, size, supply) <==> size <= WORD - 8 && NoWrap(v, size)
  {
    AlignExact(size);
    HonestIff(b, Align(size), supply);
    if FirstFit(v.blocks, Align(size)) < |v.blocks| {
      ServedSpace(v, size);
    } else {
      GrownSpace(v, b, size, supply);
    }
  }

  /** No block fits. */
  lemma GrownSpace(v: HeapView, b: Break, size: nat, supply: nat)
    requires b.start == v.start && b.brk == v.brk && size < WORD && FirstFit(v.blocks, Align(size)) >= |v.blocks|
    requires Wf(b) && Covered(b) && TopUnmapped(b) && supply >= WORD / 4096
    ensures Align(size) <= WORD - 8 && -Asked(Align(size)) <= b.brk
    ensures Serves(v, b, size, size, supply) <==> size <= WORD - 8 && NoWrap(v, size)
  {
    AlignExact(size);
    HonestIff(b, Align(size), supply);
  }

  /** kcalloc passes on the product cut to 32 bits. It does right iff the product fits and kmalloc does right by
      it, or what is left of the product is rightly refused. */
  lemma KcallocSoundIff(v: HeapView, b: Break, nmemb: nat, size: nat, supply: nat)
    requires Inv(v) && b.start == v.start && b.brk == v.brk
    requires Wf(b) && Covered(b) && TopUnmapped(b) && supply >= WORD / 4096
    ensures var bytes := nmemb * size % WORD;
      -Asked(Align(bytes)) <= b.brk &&
      (Serves(v, b, bytes, nmemb * size, supply) <==>
        (nmemb * size <= WORD - 8 && NoWrap(v, nmemb * size))
        || (FirstFit(v.blocks, Align(bytes)) == |v.blocks| && Refused(v.start, v.brk, Align(bytes))))
  {
    var total := nmemb * size;
    CutBelow(total);
    ProductSoundIff(v, b, total, total % WORD, supply);
  }

  lemma CutBelow(total: nat)
    ensures total % WORD < WORD && (total < WORD ==> total % WORD == total)
  {
  }

  lemma ProductSoundIff(v: HeapView, b: Break, total: nat, bytes: nat, supply: nat)
    requires Inv(v) && b.start == v.start && b.brk == v.brk && bytes < WORD && (total < WORD ==> bytes == total)
    requires Wf(b) && Covered(b) && TopUnmapped(b) && supply >= WORD / 4096
    ensures -Asked(Align(bytes)) <= b.brk
    ensures Serves(v, b, bytes, total, supply) <==>
      (total <= WORD - 8 && NoWrap(v, total))
      || (FirstFit(v.blocks, Align(bytes)) == |v.blocks| && Refused(v.start, v.brk, Align(bytes)))
  {
    if total < WORD {
      AlignExact(bytes);
      KmallocSoundIff(v, b, total, supply);
    } else {
      CutProduct(v, b, total, bytes, supply);
    }
  }

  /** A product that was cut is more than kmalloc can give. */
  lemma CutProduct(v: HeapView, b: Break, total: nat, bytes: nat, supply: nat)
    requires Inv(v) && b.start == v.start && b.brk == v.brk && bytes < WORD <= total
    requires Wf(b) && Covered(b) && TopUnmapped(b) && supply >= WORD / 4096
    ensures -Asked(Align(bytes)) <= b.brk
    ensures Serves(v, b, bytes, total, supply) <==>
      FirstFit(v.blocks, Align(bytes)) == |v.blocks| && Refused(v.start, v.brk, Align(bytes))
  {
    AlignExact(bytes);
    HonestIff(b, Align(bytes), supply);
    if FirstFit(v.blocks, Align(bytes)) < |v.blocks| { ServedSpace(v, bytes); }
  }

  /** The largest size that ALIGN still gets right makes sbrk's argument 0: the break stays where it is and kmalloc
      returns a pointer to nothing. */
  lemma KmallocOfNothing(b: Break, supply: nat)
    requires Wf(b)
    ensures Align(0xFFFF_FFF8) == 0xFFFF_FFF8 && Asked(0xFFFF_FFF8) == 0
    ensures Sbrk(b, Asked(0xFFFF_FFF8), supply) == (b, true)
  {
    AlignExact(0xFFFF_FFF8);
    GrowNothing(b, supply);
  }

  class KernelHeap {
    const mem: array<Byte>
    const pb: BreakCell
    ghost var blocks: seq<Block>

    ghost function View(): HeapView
      reads this, mem, pb
    {
      HeapView(mem[..], pb.start, pb.brk, blocks)
    }

    ghost predicate Valid()
      reads this, mem, pb
    {
      Inv(View()) && Wf(pb.View()) && Covered(pb.View())
    }

    /** heap_init: one free block up to the 4 MB mark. The kernel aborts if its image leaves no room there. */
    constructor (mem: array<Byte>, kernelEnd: nat, mapped: set<nat>)
      requires mem.Length == WORD
      requires forall p :: KERNEL_BASE / 4096 <= p < (KERNEL_BASE + 0x40_0000) / 4096 ==> p in mapped
      requires KERNEL_BASE <= kernelEnd && HeapStart(kernelEnd) < KERNEL_BASE + 0x40_0000
      modifies mem
      ensures Valid() && this.mem == mem && fresh(pb)
      ensures pb.start == HeapStart(kernelEnd) && pb.brk == KERNEL_BASE + 0x40_0000 && pb.mapped == mapped
      ensures blocks == [Block(pb.start, pb.brk - 8, true)]
    {
      var limit, start := KERNEL_BASE + 0x40_0000, HeapStart(kernelEnd);
      this.mem := mem;
      pb := new BreakCell(start, limit, mapped);
      blocks := [Block(start, limit - 8, true)];
      new;
      InitialBreak(kernelEnd, mapped);
      WriteHeader(mem, limit - 8, 1, 0, 0);
      ghost var m1 := mem[..];
      WriteHeader(mem, start, 0, 1, limit - 8);
      InitialInv(m1, mem[..], start, limit);
    }

    /** Facts about block `i` that the code relies on when it follows a pointer to it. */
    lemma BlockFacts(i: nat)
      requires Valid() && i < |blocks|
      ensures HeaderOk(mem[..], blocks[i])
      ensures pb.start <= blocks[i].addr && blocks[i].addr + 8 <= blocks[i].next == Cut(blocks, i + 1, pb.brk - 8) <= pb.brk - 8
      ensures AvailableSpace(mem, blocks[i].addr) == Space(blocks[i]) < WORD / 2
    {
      TiledApart(blocks, pb.start, pb.brk - 8, i);
      assert HeaderOk(mem[..], blocks[i]);
    }

    method HeapBlockSplit(block: nat, size: nat, ghost i: nat)
      requires Valid() && i < |blocks| && blocks[i].addr == block && size <= Space(blocks[i])
      modifies this, mem
      ensures Valid() && blocks == Split(old(blocks), i, size)
      ensures Within(old(mem[..]), mem[..], block, old(blocks[i].next)) && Same(old(mem[..]), mem[..], block + 8, block + 8 + size)
      ensures Pieces(old(blocks[i]), size, Align(size)) == [old(blocks[i])] ==> mem[..] == old(mem[..])
    {
      BlockFacts(i);
      AlignExact(size);
      ghost var v, b := View(), blocks[i];
      ghost var mid := Pieces(b, size, Align(size));
      PiecesTiled(b, size, Align(size));
      var aligned, available := Align(size), AvailableSpace(mem, block);
      if available < Wrap(aligned + 8 + 16) {
        assert Split(blocks, i, size) == blocks;
        return;
      }
      var cut := block + 8 + size;
      WriteHeader(mem, cut, 0, 1, ReadHeader(mem, block).next);
      ghost var m1 := mem[..];
      WriteNext(mem, block, cut);
      SplitWrites(b, size, v.mem, m1, mem[..]);
      Rewritten(v, mem[..], i, i + 1, mid);
      blocks := Split(blocks, i, size);
    }

    /** kmalloc, lines 27-31: the node fits. */
    method Take(node: nat, want: nat, ghost i: nat) returns (r: nat)
      requires Valid() && i < |blocks| && blocks[i].addr == node && Fits(blocks[i], want) && Align(want) == want
      modifies this, mem
      ensures Valid() && r == node + 8 && blocks == Reserve(old(blocks), i, want) && Isolated(old(View()), View())
    {
      ghost var v := View();
      BlockFacts(i);
      HeapBlockSplit(node, want, i);
      ghost var v1 := View();
      WriteFree(mem, node, 0);
      Taken(v, v1, mem[..], i, want);
      blocks := Reserve(v.blocks, i, want);
      r := node + 8;
    }

    /** kmalloc, lines 36-58: no node fits and `node` is the end marker. */
    method Extend(node: nat, want: nat, supply: nat) returns (r: nat)
      requires Valid() && node == pb.brk - 8 && (Growable(pb.brk, want) || Refused(pb.start, pb.brk, want))
      modifies this, mem, pb
      ensures Valid() && pb.start == old(pb.start) && Isolated(old(View()), View())
      ensures r == 0 <==> Refused(old(pb.start), old(pb.brk), want) || Short(old(pb.brk), want, supply)
      ensures r == 0 ==> View() == old(View())
      ensures r != 0 ==> Growable(old(pb.brk), want) && r == old(pb.brk) && pb.brk == old(pb.brk) + want + 8
                         && blocks == old(blocks) + [Block(node, node + 8 + want, false)]
    {
      ghost var v := View();
      AskedFor(pb.View(), want, supply);
      var newBlock := pb.Increment(Asked(want), supply);
      if newBlock == -1 {
        return 0;
      }
      AppendBlock(node, v);
      r := node + 8;
    }

    /** kmalloc, lines 45-55: the end marker of `v` becomes a block up to the new end marker. */
    method AppendBlock(node: nat, ghost v: HeapView)
      requires Inv(v) && View() == v.(brk := pb.brk) && node == v.brk - 8 && v.brk + 8 <= pb.brk && pb.brk + 4095 < WORD
      modifies this, mem
      ensures View() == v.(mem := mem[..], brk := pb.brk, blocks := v.blocks + [Block(node, pb.brk - 8, false)])
      ensures Inv(View()) && Isolated(v, View())
    {
      var newEnd := pb.brk - 8;
      WriteExtension(mem, node, newEnd);
      Extended(v, mem[..], pb.brk);
      blocks := blocks + [Block(node, newEnd, false)];
    }

    /** kmalloc, lines 22-35: walk the chain to the first node that fits, or to the end marker. */
    method FindFit(want: nat) returns (node: nat, ghost i: nat)
      requires Valid()
      ensures IsFirstFit(blocks, want, i) && node == Cut(blocks, i, pb.brk - 8) && node + 8 <= mem.Length
      ensures ReadHeader(mem, node).eom == 0 <==> i < |blocks|
    {
      node, i := pb.start, 0;
      while ReadHeader(mem, node).eom == 0
        invariant i <= |blocks| && node == Cut(blocks, i, pb.brk - 8) && node + 8 <= mem.Length
        invariant forall b :: b in blocks[..i] ==> !Fits(b, want)
        decreases |blocks| - i
      {
        BlockFacts(i);
        if ReadHeader(mem, node).free != 0 && AvailableSpace(mem, node) >= want {
          return;
        }
        node := ReadHeader(mem, node).next;
        assert blocks[..i + 1] == blocks[..i] + [blocks[i]];
        i := i + 1;
      }
      if i < |blocks| { BlockFacts(i); }
    }

    method GrowFor(node: nat, size: nat, supply: nat) returns (r: nat)
      requires Valid() && node == pb.brk - 8 && IsFirstFit(blocks, Align(size), |blocks|) && NoWrap(View(), size)
      modifies this, mem, pb
      ensures Valid() && MallocStep(old(View()), size, View(), r)
      ensures r == 0 <==> Denied(old(View()), size, supply)
    {
      ghost var v := View();
      WrapFree(v, size);
      FirstFitUnique(v.blocks, Align(size), |v.blocks|);
      r := Extend(node, Align(size), supply);
      MallocExtended(v, size, View(), r);
    }

    method Kmalloc(size: nat, supply: nat) returns (r: nat)
      requires Valid() && size < WORD && NoWrap(View(), size)
      modifies this, mem, pb
      ensures Valid() && MallocStep(old(View()), size, View(), r)
      ensures r == 0 <==> Denied(old(View()), size, supply)
    {
      ghost var v := View();
      AlignTwice(size);
      var want := Align(size);
      ghost var i;
      var node: nat;
      node, i := FindFit(want);
      if ReadHeader(mem, node).eom == 0 {
        r := Take(node, want, i);
        MallocTook(v, size, i, View(), r);
      } else {
        r := GrowFor(node, size, supply);
      }
    }

    /** kfree, lines 125-129: mark the block free and merge it with a free successor. */
    method FreeForward(node: nat, ghost i: nat)
      requires Valid() && i < |blocks| && blocks[i].addr == node
      modifies this, mem
      ensures Valid() && HalfFreed(old(View()), View(), i)
    {
      ghost var v := View();
      BlockFacts(i);
      if i + 1 < |blocks| { BlockFacts(i + 1); }
      MarkAndMerge(mem, node);
      Forward(v, mem[..], i);
      blocks := ForwardMerged(blocks, i);
      assert View() == v.(mem := mem[..], blocks := ForwardMerged(v.blocks, i));
    }

    /** kfree, lines 131-142: let a free predecessor absorb the block. */
    method FreeBackward(node: nat, ghost v: HeapView, ghost i: nat)
      requires Valid() && Inv(v) && i < |v.blocks| && v.blocks[i].addr == node && HalfFreed(v, View(), i)
      modifies this, mem
      ensures Valid() && FreeStep(v, i, View())
    {
      FirstBlock(v.blocks, v.start, v.brk - 8, i);
      if node == pb.start {
        FreedAlone(v, View(), i);
      } else {
        FreeIntoParent(node, v, i);
      }
    }

    method FreeIntoParent(node: nat, ghost v: HeapView, ghost i: nat)
      requires Valid() && Inv(v) && 0 < i < |v.blocks| && v.blocks[i].addr == node && HalfFreed(v, View(), i)
      modifies this, mem
      ensures Valid() && FreeStep(v, i, View())
    {
      ghost var u := View();
      ReleaseInTwo(v.blocks, i, ReleaseTo(v.blocks, i));
      var parent := FindParent(node, i);
      BlockFacts(i - 1);
      BlockFacts(i);
      if ReadHeader(mem, parent).free != 0 {
        Absorb(parent, node, v, i);
      } else {
        FreedAlone(v, u, i);
      }
    }

    /** kfree, line 141: the free predecessor swallows the block. */
    method Absorb(parent: nat, node: nat, ghost v: HeapView, ghost i: nat)
      requires Valid() && Inv(v) && 0 < i < |v.blocks| && i < |blocks| && HalfFreed(v, View(), i) && v.blocks[i - 1].free
      requires parent == v.blocks[i - 1].addr == blocks[i - 1].addr && node == blocks[i].addr
      modifies this, mem
      ensures Valid() && FreeStep(v, i, View())
    {
      ghost var u := View();
      BlockFacts(i - 1);
      BlockFacts(i);
      WriteNext(mem, parent, ReadHeader(mem, node).next);
      FreedAbsorbed(v, u, mem[..], i);
      blocks := Release(v.blocks, i);
      assert View() == v.(mem := mem[..], blocks := Release(v.blocks, i));
    }

    /** kfree, lines 136-139: walk the chain to the block in front of `node`. */
    method FindParent(node: nat, ghost i: nat) returns (parent: nat)
      requires Valid() && 0 < i < |blocks| && blocks[i].addr == node
      ensures parent == blocks[i - 1].addr
    {
      parent := pb.start;
      ghost var j := 0;
      FirstBlock(blocks, pb.start, pb.brk - 8, i);
      BlockFacts(0);
      while ReadHeader(mem, parent).next != node
        invariant j < i && parent == blocks[j].addr && HeaderOk(mem[..], blocks[j])
        decreases i - j
      {
        BlockFacts(j);
        BlockFacts(j + 1);
        parent := ReadHeader(mem, parent).next;
        j := j + 1;
      }
      OnlyParent(blocks, pb.start, pb.brk - 8, j, i);
    }

    method Kfree(ptr: nat, ghost i: nat)
      requires Valid() && PointsTo(View(), ptr, i)
      modifies this, mem
      ensures Valid() && FreeStep(old(View()), i, View())
    {
      ghost var v := View();
      FreeForward(ptr - 8, i);
      FreeBackward(ptr - 8, v, i);
    }

    /** `bytes` is the product cut to 32 bits. */
    method Kcalloc(nmemb: nat, size: nat, supply: nat, ghost bytes: nat) returns (r: nat)
      requires Valid() && bytes == nmemb * size % WORD && bytes <= WORD - 8 && NoWrap(View(), bytes)
      modifies this, mem, pb
      ensures Valid() && CallocStep(old(View()), bytes, View(), r)
      ensures r == 0 <==> Denied(old(View()), bytes, supply)
    {
      r := Zeroed(nmemb * size % WORD, supply);
    }

    method Zeroed(bytes: nat, supply: nat) returns (r: nat)
      requires Valid() && bytes <= WORD - 8 && NoWrap(View(), bytes)
      modifies this, mem, pb
      ensures Valid() && CallocStep(old(View()), bytes, View(), r)
      ensures r == 0 <==> Denied(old(View()), bytes, supply)
    {
      ghost var v := View();
      r := Kmalloc(bytes, supply);
      if r == 0 {
        return;
      }
      ghost var u := View();
      MallocRoom(v, bytes, u, r);
      MemSet(mem, r, 0, bytes);
      NewBlockFilled(v, bytes, u, mem[..], r);
    }

    /** krealloc, lines 97-101: the block is large enough already. */
    method Shrink(ptr: nat, size: nat, ghost i: nat)
      requires Valid() && PointsTo(View(), ptr, i) && !blocks[i].free && size <= Space(blocks[i])
      modifies this, mem
      ensures Valid() && ReallocStep(old(View()), i, size, View(), ptr)
    {
      ghost var v := View();
      BlockFacts(i);
      AlignExact(size);
      HeapBlockSplit(ptr - 8, size, i);
      ShrunkIsolated(v, View(), i, size);
    }

    /** krealloc, line 109: fill the new block from the old one. */
    method CopyOver(ptr: nat, r: nat, available: nat, ghost v: HeapView, ghost b: Block, ghost size: nat)
      requires Valid() && Inv(v) && b in Used(v.blocks) && ptr == b.addr + 8 && available == Space(b) < size <= WORD - 8
      requires MallocStep(v, size, View(), r) && r != 0
      modifies mem
      ensures Valid() && Copied(v, b, size, old(View()), View(), r)
    {
      ghost var u := View();
      TiledRange(v.blocks, v.start, v.brk - 8);
      MallocRoom(v, size, u, r);
      MemMove(mem, r, ptr, available);
      CopyDone(v, b, size, u, mem[..], r);
      assert View() == u.(mem := mem[..]);
    }

    /** krealloc, lines 103-113: allocate elsewhere, copy, free. */
    method Move(ptr: nat, size: nat, supply: nat, ghost i: nat) returns (r: nat)
      requires Valid() && PointsTo(View(), ptr, i) && !blocks[i].free && Space(blocks[i]) < size <= WORD - 8 && NoWrap(View(), size)
      modifies this, mem, pb
      ensures Valid() && ReallocStep(old(View()), i, size, View(), r)
      ensures r == 0 <==> Denied(old(View()), size, supply)
    {
      ghost var v := View();
      BlockFacts(i);
      var available := AvailableSpace(mem, ptr - 8);
      r := Kmalloc(size, supply);
      if r == 0 {
        return;
      }
      ghost var u := View();
      CopyOver(ptr, r, available, v, v.blocks[i], size);
      FreeOriginal(ptr, v, i, size, u, r);
    }

    /** krealloc, line 110 */
    method FreeOriginal(ptr: nat, ghost v: HeapView, ghost i: nat, ghost size: nat, ghost u: HeapView, ghost r: nat)
      requires Valid() && i < |v.blocks| && Space(v.blocks[i]) < size && r != 0 && ptr == v.blocks[i].addr + 8
      requires Copied(v, v.blocks[i], size, u, View(), r)
      modifies this, mem
      ensures Valid() && ReallocStep(v, i, size, View(), r)
    {
      ghost var x := View();
      assert v.blocks[i] in Used(x.blocks);
      ghost var j :| 0 <= j < |x.blocks| && x.blocks[j] == v.blocks[i];
      Kfree(ptr, j);
      MoveDone(v, i, size, u, x, j, View(), r);
    }

    method Krealloc(ptr: nat, size: nat, supply: nat, ghost i: nat) returns (r: nat)
      requires Valid() && size < WORD
      requires ptr != 0 ==> PointsTo(View(), ptr, i) && !blocks[i].free
      requires ptr == 0 ==> NoWrap(View(), size)
      requires ptr != 0 && size > Space(blocks[i]) ==> size <= WORD - 8 && NoWrap(View(), size)
      modifies this, mem, pb
      ensures Valid()
      ensures ptr == 0 ==> MallocStep(old(View()), size, View(), r)
      ensures ptr == 0 || (size != 0 && size > old(Space(blocks[i]))) ==> (r == 0 <==> Denied(old(View()), size, supply))
      ensures ptr != 0 && size == 0 ==> r == 0 && FreeStep(old(View()), i, View())
      ensures ptr != 0 && size != 0 ==> ReallocStep(old(View()), i, size, View(), r)
    {
      if ptr == 0 {
        r := Kmalloc(size, supply);
        return;
      }
      if size == 0 {
        Kfree(ptr, i);
        return 0;
      }
      BlockFacts(i);
      if AvailableSpace(mem, ptr - 8) >= size {
        Shrink(ptr, size, i);
        return ptr;
      }
      r := Move(ptr, size, supply, i);
    }
  }
}
