/** Whole runs of kmalloc, kcalloc, krealloc and kfree, as seen by the clients of the heap. A client passes
    only live pointers and sizes for which no 32-bit sum wraps; everything else is up to the heap. */
module HeapRuns {
  import opened ByteStore
  import opened HeapBlocks
  import opened Heap
  import opened ProgramBreak

  /** The heap together with the blocks its clients hold, and the size each was last requested with.
      The pointer a client has in hand is the byte after the header of the block. */
  datatype Client = Client(v: HeapView, live: map<Block, nat>)

  function Pointer(b: Block): nat {
    b.addr + 8
  }

  /** A call, the number of pages to be had at the time, and the pointer it returned; or a write to memory: a client to its own block, or anyone outside the
      heap. krealloc(NULL, n) is kmalloc(n) and krealloc(p, 0) is kfree(p). */
  datatype Call =
    | Malloc(size: nat, supply: nat, r: nat)
    | Calloc(nmemb: nat, size: nat, bytes: nat, supply: nat, r: nat)
    | Realloc(b: Block, size: nat, supply: nat, r: nat)
    | Free(b: Block)
    | Write(b: Block, m: seq<Byte>)
    | Elsewhere(m: seq<Byte>)

  ghost predicate Obeys(c: Client, call: Call) {
    match call
    case Malloc(size, _, _) => size <= WORD - 8 && NoWrap(c.v, size)
    case Calloc(nmemb, size, bytes, _, _) => bytes == nmemb * size && bytes <= WORD - 8 && NoWrap(c.v, bytes)
    case Realloc(b, size, _, _) => 0 < size <= WORD - 8 && b in c.live && (Space(b) >= size || NoWrap(c.v, size))
    case Free(b) => b in c.live
    case Write(b, m) => b in c.live && Within(c.v.mem, m, Pointer(b), b.next)
    case Elsewhere(m) => Same(c.v.mem, m, c.v.start, c.v.brk)
  }

  /** Block `i` is `b`, so `Pointer(b)` is what the methods call a pointer to block `i`. */
  ghost predicate IsAt(v: HeapView, b: Block, i: nat) {
    i < |v.blocks| && v.blocks[i] == b
  }

  ghost predicate FreesTo(v: HeapView, b: Block, w: HeapView) {
    exists i: nat :: IsAt(v, b, i) && FreeStep(v, i, w)
  }

  ghost predicate ReallocsTo(v: HeapView, b: Block, size: nat, w: HeapView, r: nat) {
    exists i: nat :: IsAt(v, b, i) && ReallocStep(v, i, size, w, r)
  }

  function Granted(live: map<Block, nat>, r: nat, n: Block, size: nat): map<Block, nat> {
    if r == 0 then live else live[n := size]
  }

  /** The books after a krealloc. */
  ghost function Regranted(c: Client, b: Block, size: nat, r: nat): map<Block, nat> {
    if r == 0 then c.live
    else if Space(b) >= size then (c.live - {b})[Pieces(b, size, Align(size))[0] := size]
    else c.live[NewBlock(c.v, size) := size] - {b}
  }

  /** The headers found in memory are those of the blocks. */
  ghost predicate Headers(v: HeapView) {
    |v.mem| == WORD && v.brk >= 8 && Stored(v.mem, v.blocks) && EndOk(v.mem, v.brk - 8)
  }

  /** One call, as the contracts of the heap's methods describe it: the new list of blocks, written out in memory. */
  ghost predicate Step(c: Client, call: Call, d: Client) {
    match call
    case Malloc(size, supply, r) =>
      MallocStep(c.v, size, d.v, r) && (r == 0 <==> Denied(c.v, size, supply)) && Headers(d.v) && d.live == Granted(c.live, r, NewBlock(c.v, size), size)
    case Calloc(_, _, bytes, supply, r) =>
      CallocStep(c.v, bytes, d.v, r) && (r == 0 <==> Denied(c.v, bytes, supply)) && Headers(d.v)
      && d.live == Granted(c.live, r, NewBlock(c.v, bytes), bytes)
    case Free(b) => FreesTo(c.v, b, d.v) && Headers(d.v) && d.live == c.live - {b}
    case Realloc(b, size, supply, r) =>
      ReallocsTo(c.v, b, size, d.v, r) && (Space(b) < size ==> (r == 0 <==> Denied(c.v, size, supply)))
      && Headers(d.v) && d.live == Regranted(c, b, size, r)
    case Write(_, m) => d == c.(v := c.v.(mem := m))
    case Elsewhere(m) => d == c.(v := c.v.(mem := m))
  }

  /** A call within its preconditions. */
  ghost predicate Called(c: Client, call: Call, d: Client) {
    Obeys(c, call) && Step(c, call, d)
  }

  ghost predicate Run(cs: seq<Client>, calls: seq<Call>) {
    |cs| == |calls| + 1 && forall i, j :: 0 <= i < |calls| && j == i + 1 ==> Called(cs[i], calls[i], cs[j])
  }

  /** What clients hold is exactly what the heap regards as used, and is large enough. */
  ghost predicate Books(us: set<Block>, live: map<Block, nat>) {
    live.Keys == us && forall b :: b in live ==> Space(b) >= live[b]
  }

  ghost predicate Consistent(c: Client) {
    Inv(c.v) && Books(Used(c.v.blocks), c.live)
  }

  // ---------------------------------------------------------------- the heap stays well-formed

  /** The invariant without the memory: the blocks tile the heap up to the end marker below the break. */
  ghost predicate Layout(v: HeapView) {
    KERNEL_BASE <= v.start && v.start + 16 <= v.brk && v.brk + 4095 < WORD && Tiled(v.blocks, v.start, v.brk - 8)
  }

  lemma InvIs(v: HeapView)
    ensures Inv(v) <==> Layout(v) && Headers(v)
  {
  }

  lemma MallocLayout(v: HeapView, size: nat, w: HeapView, r: nat)
    requires Layout(v) && MallocStep(v, size, w, r)
    ensures Layout(w)
  {
    var k, want := FirstFit(v.blocks, Align(size)), Align(size);
    if k < |v.blocks| {
      ReserveTiled(v.blocks, v.start, v.brk - 8, k, want);
    } else if r != 0 {
      var b := Block(v.brk - 8, v.brk + want, false);
      assert [b][1..] == [];
      TiledAppend(v.blocks, [b], v.start, v.brk - 8, v.brk + want);
    }
  }

  lemma CallocLayout(v: HeapView, bytes: nat, w: HeapView, r: nat)
    requires Layout(v) && CallocStep(v, bytes, w, r)
    ensures Layout(w)
  {
    var u :| MallocStep(v, bytes, u, r) && w == u.(mem := w.mem);
    MallocLayout(v, bytes, u, r);
  }

  lemma FreeLayout(v: HeapView, b: Block, w: HeapView)
    requires Layout(v) && FreesTo(v, b, w)
    ensures Layout(w)
  {
    var i: nat :| IsAt(v, b, i) && FreeStep(v, i, w);
    FreedLayout(v, i, w);
  }

  lemma FreedLayout(v: HeapView, i: nat, w: HeapView)
    requires Layout(v) && i < |v.blocks| && FreeStep(v, i, w)
    ensures Layout(w)
  {
    ReleaseTiled(v.blocks, v.start, v.brk - 8, i);
  }

  lemma MovedLayout(v: HeapView, b: Block, size: nat, u: HeapView, x: HeapView, j: nat, w: HeapView, r: nat)
    requires Layout(v) && MovedVia(v, b, size, u, x, j, w, r)
    ensures Layout(w)
  {
    MallocLayout(v, size, u, r);
    assert IsAt(x, b, j);
    FreeLayout(x, b, w);
  }

  lemma ReallocLayout(v: HeapView, b: Block, size: nat, w: HeapView, r: nat)
    requires Layout(v) && size <= WORD - 8 && ReallocsTo(v, b, size, w, r)
    ensures Layout(w)
  {
    var i: nat :| IsAt(v, b, i) && ReallocStep(v, i, size, w, r);
    if Space(b) >= size {
      AlignExact(size);
      SplitTiled(v.blocks, v.start, v.brk - 8, i, size);
    } else if r != 0 {
      var u, x, j :| MovedVia(v, b, size, u, x, j, w, r);
      MovedLayout(v, b, size, u, x, j, w, r);
    }
  }

  /** A write outside the heap leaves it as it was. */
  lemma ElsewhereInv(v: HeapView, m: seq<Byte>)
    requires Inv(v) && Same(v.mem, m, v.start, v.brk)
    ensures Inv(v.(mem := m))
  {
    TiledRange(v.blocks, v.start, v.brk - 8);
    forall b | b in v.blocks ensures HeaderOk(m, b) { assert HeaderOk(v.mem, b); }
  }

  lemma WriteInv(c: Client, b: Block, m: seq<Byte>)
    requires Consistent(c) && b in c.live && Within(c.v.mem, m, Pointer(b), b.next)
    ensures Inv(c.v.(mem := m)) && b in c.v.blocks
    ensures forall a :: a in c.v.blocks && a != b ==> Same(c.v.mem, m, a.addr, a.next)
  {
    assert b in Used(c.v.blocks);
    ContentsWritten(c.v, m, b);
  }

  /** Every call and every write keeps the chain in memory well-formed. */
  lemma StepInv(c: Client, call: Call, d: Client)
    requires Consistent(c) && Called(c, call, d)
    ensures Inv(d.v)
  {
    InvIs(c.v);
    match call
    case Malloc(size, _, r) => MallocLayout(c.v, size, d.v, r); InvIs(d.v);
    case Calloc(_, _, bytes, _, r) => CallocLayout(c.v, bytes, d.v, r); InvIs(d.v);
    case Free(b) => FreeLayout(c.v, b, d.v); InvIs(d.v);
    case Realloc(b, size, _, r) => ReallocLayout(c.v, b, size, d.v, r); InvIs(d.v);
    case Write(b, m) => WriteInv(c, b, m);
    case Elsewhere(m) => ElsewhereInv(c.v, m);
  }

  // ---------------------------------------------------------------- and the books balance

  lemma MallocBooks(v: HeapView, live: map<Block, nat>, size: nat, w: HeapView, r: nat)
    requires Shape(v) && Books(Used(v.blocks), live) && size <= WORD - 8 && MallocStep(v, size, w, r)
    ensures Books(Used(w.blocks), Granted(live, r, NewBlock(v, size), size))
  {
    if r != 0 {
      MallocAdds(v, size, w, r);
      AlignExact(size);
    }
  }

  lemma CallocBooks(v: HeapView, live: map<Block, nat>, bytes: nat, w: HeapView, r: nat)
    requires Shape(v) && Books(Used(v.blocks), live) && bytes <= WORD - 8 && CallocStep(v, bytes, w, r)
    ensures Books(Used(w.blocks), Granted(live, r, NewBlock(v, bytes), bytes))
  {
    var u :| MallocStep(v, bytes, u, r) && w == u.(mem := w.mem);
    MallocBooks(v, live, bytes, u, r);
  }

  lemma FreeBooks(v: HeapView, live: map<Block, nat>, b: Block, w: HeapView)
    requires Shape(v) && Books(Used(v.blocks), live) && FreesTo(v, b, w)
    ensures Books(Used(w.blocks), live - {b})
  {
    var i: nat :| IsAt(v, b, i) && FreeStep(v, i, w);
    ReleaseUsed(v.blocks, v.start, v.brk - 8, i);
  }

  lemma ShrinkBooks(v: HeapView, live: map<Block, nat>, i: nat, size: nat)
    requires Shape(v) && Books(Used(v.blocks), live) && i < |v.blocks| && !v.blocks[i].free
    requires size <= Space(v.blocks[i]) && size <= Align(size)
    ensures Books(Used(Split(v.blocks, i, size)), (live - {v.blocks[i]})[Pieces(v.blocks[i], size, Align(size))[0] := size])
  {
    SplitTiled(v.blocks, v.start, v.brk - 8, i, size);
    TiledApart(v.blocks, v.start, v.brk - 8, i);
    PiecesTiled(v.blocks[i], size, Align(size));
  }

  lemma MoveBooks(v: HeapView, live: map<Block, nat>, b: Block, size: nat, u: HeapView, x: HeapView, j: nat, w: HeapView, r: nat)
    requires Shape(v) && Books(Used(v.blocks), live) && size <= WORD - 8 && r != 0 && MovedVia(v, b, size, u, x, j, w, r)
    ensures Books(Used(w.blocks), live[NewBlock(v, size) := size] - {b})
  {
    MallocBooks(v, live, size, u, r);
    assert IsAt(x, b, j);
    FreeBooks(x, live[NewBlock(v, size) := size], b, w);
  }

  lemma ReallocBooks(c: Client, b: Block, size: nat, w: HeapView, r: nat)
    requires Shape(c.v) && Books(Used(c.v.blocks), c.live) && b in c.live
    requires 0 < size <= WORD - 8 && ReallocsTo(c.v, b, size, w, r)
    ensures Books(Used(w.blocks), Regranted(c, b, size, r))
  {
    var i: nat :| IsAt(c.v, b, i) && ReallocStep(c.v, i, size, w, r);
    if Space(b) >= size {
      AlignExact(size);
      ShrinkBooks(c.v, c.live, i, size);
    } else if r != 0 {
      var u, x, j :| MovedVia(c.v, b, size, u, x, j, w, r);
      MoveBooks(c.v, c.live, b, size, u, x, j, w, r);
    }
  }

  /** Every call keeps the books. */
  lemma StepBooks(c: Client, call: Call, d: Client)
    requires Shape(c.v) && Books(Used(c.v.blocks), c.live) && Obeys(c, call) && Step(c, call, d)
    ensures Books(Used(d.v.blocks), d.live)
  {
    match call
    case Malloc(size, _, r) => MallocBooks(c.v, c.live, size, d.v, r);
    case Calloc(_, _, bytes, _, r) => CallocBooks(c.v, c.live, bytes, d.v, r);
    case Free(b) => FreeBooks(c.v, c.live, b, d.v);
    case Realloc(b, size, _, r) => ReallocBooks(c, b, size, d.v, r);
    case Write(_, _) =>
    case Elsewhere(_) =>
  }

  lemma StepConsistent(c: Client, call: Call, d: Client)
    requires Consistent(c) && Called(c, call, d)
    ensures Consistent(d)
  {
    StepInv(c, call, d);
    StepBooks(c, call, d);
  }

  /** In every run the chain in memory tiles the heap, and every live payload is at least as large as requested. */
  lemma {:induction false} RunConsistent(cs: seq<Client>, calls: seq<Call>, i: nat)
    requires Run(cs, calls) && Consistent(cs[0]) && i < |cs|
    ensures Consistent(cs[i])
  {
    if i > 0 {
      RunConsistent(cs, calls, i - 1);
      StepConsistent(cs[i - 1], calls[i - 1], cs[i]);
    }
  }

  /** Live payloads are pairwise disjoint, and lie inside the heap. */
  lemma LiveDisjoint(c: Client, a: Block, b: Block)
    requires Consistent(c) && a in c.live && b in c.live && a != b
    ensures Pointer(a) + c.live[a] <= b.addr || Pointer(b) + c.live[b] <= a.addr
    ensures c.v.start < Pointer(a) && Pointer(a) + c.live[a] <= c.v.brk - 8
  {
    assert a in Used(c.v.blocks) && b in Used(c.v.blocks);
    var i :| 0 <= i < |c.v.blocks| && c.v.blocks[i] == a;
    TiledApart(c.v.blocks, c.v.start, c.v.brk - 8, i);
    TiledRange(c.v.blocks, c.v.start, c.v.brk - 8);
  }

  // ---------------------------------------------------------------- isolation

  ghost predicate Targets(call: Call, b: Block) {
    (call.Free? || call.Realloc? || call.Write?) && call.b == b
  }

  ghost predicate Unharmed(c: Client, d: Client, b: Block) {
    b in c.live && b in d.live && d.live[b] == c.live[b] && Same(c.v.mem, d.v.mem, Pointer(b), b.next)
  }

  lemma NewBlockNotLive(v: HeapView, live: map<Block, nat>, size: nat, w: HeapView, r: nat)
    requires Shape(v) && Books(Used(v.blocks), live) && MallocStep(v, size, w, r) && r != 0
    ensures NewBlock(v, size) !in live
  {
    MallocAdds(v, size, w, r);
  }

  lemma PieceNotLive(v: HeapView, live: map<Block, nat>, i: nat, size: nat, b: Block)
    requires Shape(v) && Books(Used(v.blocks), live) && i < |v.blocks| && b in live && b != v.blocks[i]
    ensures b != Pieces(v.blocks[i], size, Align(size))[0]
  {
    assert b in Used(v.blocks);
    TiledApart(v.blocks, v.start, v.brk - 8, i);
    TiledRange(v.blocks, v.start, v.brk - 8);
  }

  lemma CallocNotLive(v: HeapView, live: map<Block, nat>, bytes: nat, w: HeapView, r: nat)
    requires Shape(v) && Books(Used(v.blocks), live) && CallocStep(v, bytes, w, r) && r != 0
    ensures NewBlock(v, bytes) !in live
  {
    var u :| MallocStep(v, bytes, u, r) && w == u.(mem := w.mem);
    NewBlockNotLive(v, live, bytes, u, r);
  }

  lemma ReallocKeepsEntry(c: Client, t: Block, size: nat, w: HeapView, r: nat, b: Block)
    requires Shape(c.v) && Books(Used(c.v.blocks), c.live) && ReallocsTo(c.v, t, size, w, r) && b in c.live && b != t
    ensures var l := Regranted(c, t, size, r); b in l && l[b] == c.live[b]
  {
    var i: nat :| IsAt(c.v, t, i) && ReallocStep(c.v, i, size, w, r);
    if Space(t) >= size {
      PieceNotLive(c.v, c.live, i, size, b);
    } else if r != 0 {
      MovedNotLive(c.v, c.live, i, size, w, r);
    }
  }

  lemma MovedNotLive(v: HeapView, live: map<Block, nat>, i: nat, size: nat, w: HeapView, r: nat)
    requires Shape(v) && Books(Used(v.blocks), live) && i < |v.blocks| && Moved(v, i, size, w, r) && r != 0
    ensures NewBlock(v, size) !in live
  {
    var b := v.blocks[i];
    var u, x, j: nat :| MovedVia(v, b, size, u, x, j, w, r);
    NewBlockNotLive(v, live, size, u, r);
  }

  /** The bookkeeping of a call does not touch the entry of a block it was not called on. */
  lemma EntryKept(c: Client, call: Call, d: Client, b: Block)
    requires Shape(c.v) && Books(Used(c.v.blocks), c.live) && Step(c, call, d) && b in c.live && !Targets(call, b)
    ensures b in d.live && d.live[b] == c.live[b]
  {
    match call
    case Malloc(size, _, r) => if r != 0 { NewBlockNotLive(c.v, c.live, size, d.v, r); }
    case Calloc(_, _, bytes, _, r) => if r != 0 { CallocNotLive(c.v, c.live, bytes, d.v, r); }
    case Free(_) =>
    case Realloc(t, size, _, r) => ReallocKeepsEntry(c, t, size, d.v, r, b);
    case Write(_, _) =>
    case Elsewhere(_) =>
  }

  lemma StepFrame(c: Client, call: Call, d: Client)
    requires Step(c, call, d) && !call.Write? && !call.Elsewhere?
    ensures Isolated(c.v, d.v)
  {
  }

  /** A write, too, stays inside the block it was made to, or outside the heap. */
  lemma WriteFrame(c: Client, call: Call, d: Client, b: Block)
    requires Consistent(c) && Called(c, call, d) && (call.Write? || call.Elsewhere?)
    requires b in c.live && !Targets(call, b)
    ensures Same(c.v.mem, d.v.mem, Pointer(b), b.next)
  {
    assert b in Used(c.v.blocks);
    TiledRange(c.v.blocks, c.v.start, c.v.brk - 8);
    if call.Write? { WriteInv(c, call.b, call.m); }
  }

  /** A call or write leaves every block it was not made on untouched, byte for byte. */
  lemma StepIsolated(c: Client, call: Call, d: Client, b: Block)
    requires Consistent(c) && Called(c, call, d)
    requires b in c.live && !Targets(call, b)
    ensures Unharmed(c, d, b)
  {
    StepConsistent(c, call, d);
    assert Shape(c.v);
    EntryKept(c, call, d, b);
    if call.Write? || call.Elsewhere? {
      WriteFrame(c, call, d, b);
    } else {
      StepFrame(c, call, d);
      assert b in Used(c.v.blocks) && b in Used(d.v.blocks);
    }
  }

  /** Over any stretch of a run in which a block is neither freed nor reallocated nor written by its owner, it stays
      live and not one byte of it changes, whatever other clients call and write. */
  lemma {:induction false} RunIsolated(cs: seq<Client>, calls: seq<Call>, b: Block, i: nat, j: nat)
    requires Run(cs, calls) && Consistent(cs[0]) && i <= j < |cs| && b in cs[i].live
    requires forall k :: i <= k < j ==> !Targets(calls[k], b)
    ensures Unharmed(cs[i], cs[j], b)
  {
    RunConsistent(cs, calls, i);
    if i < j {
      RunIsolated(cs, calls, b, i, j - 1);
      RunConsistent(cs, calls, j - 1);
      StepIsolated(cs[j - 1], calls[j - 1], cs[j], b);
    }
  }

  /** The block a successful krealloc leaves its caller with. */
  ghost function Reallocated(c: Client, b: Block, size: nat): Block {
    if Space(b) >= size then Pieces(b, size, Align(size))[0] else NewBlock(c.v, size)
  }

  lemma MovedResult(c: Client, b: Block, size: nat, u: HeapView, r: nat)
    requires Shape(c.v) && Books(Used(c.v.blocks), c.live) && b in c.live && r != 0 && MallocStep(c.v, size, u, r)
    ensures var n := NewBlock(c.v, size); Pointer(n) == r && n != b
  {
    MallocAdds(c.v, size, u, r);
  }

  lemma ReallocResult(c: Client, b: Block, size: nat, i: nat, w: HeapView, r: nat)
    requires Shape(c.v) && Books(Used(c.v.blocks), c.live) && b in c.live && 0 < size && r != 0
    requires IsAt(c.v, b, i) && ReallocStep(c.v, i, size, w, r)
    ensures var n := Reallocated(c, b, size);
            Pointer(n) == r && n in Regranted(c, b, size, r) && Regranted(c, b, size, r)[n] == size
  {
    if Space(b) < size {
      var u, x, j :| MovedVia(c.v, b, size, u, x, j, w, r);
      MovedGrant(c, b, size, u, r);
    }
  }

  lemma MovedGrant(c: Client, b: Block, size: nat, u: HeapView, r: nat)
    requires Shape(c.v) && Books(Used(c.v.blocks), c.live) && b in c.live && r != 0 && MallocStep(c.v, size, u, r)
    requires Space(b) < size
    ensures var n := Reallocated(c, b, size);
            Pointer(n) == r && n in Regranted(c, b, size, r) && Regranted(c, b, size, r)[n] == size
  {
    MovedResult(c, b, size, u, r);
    var n, l := NewBlock(c.v, size), c.live[NewBlock(c.v, size) := size];
    assert n in l - {b} && (l - {b})[n] == size;
  }

  lemma ReallocCarries(v: HeapView, b: Block, size: nat, i: nat, w: HeapView, r: nat)
    requires IsAt(v, b, i) && r != 0 && ReallocStep(v, i, size, w, r)
    requires 0 <= Space(b) && b.next <= |v.mem| == |w.mem|
    ensures Carried(v.mem, w.mem, r, Pointer(b), if size < Space(b) then size else Space(b))
  {
  }

  /** A successful krealloc returns a live pointer to at least `size` bytes. */
  lemma ReallocGrants(c: Client, b: Block, size: nat, supply: nat, r: nat, d: Client)
    requires Shape(c.v) && Books(Used(c.v.blocks), c.live) && r != 0
    requires Obeys(c, Realloc(b, size, supply, r)) && Step(c, Realloc(b, size, supply, r), d)
    ensures var n := Reallocated(c, b, size);
            n in d.live && n in Used(d.v.blocks) && Pointer(n) == r && d.live[n] == size <= Space(n)
  {
    var i: nat :| IsAt(c.v, b, i) && ReallocStep(c.v, i, size, d.v, r);
    ReallocResult(c, b, size, i, d.v, r);
    StepBooks(c, Realloc(b, size, supply, r), d);
  }

  lemma LiveBlock(c: Client, b: Block)
    requires Consistent(c) && b in c.live
    ensures 0 <= Space(b) && b.next <= WORD
  {
    assert b in Used(c.v.blocks);
    TiledRange(c.v.blocks, c.v.start, c.v.brk - 8);
  }

  /** krealloc: NULL means nothing has happened; otherwise the new bytes agree with the old ones
      up to the smaller of the old payload and the new size. */
  lemma ReallocKeepsContents(c: Client, b: Block, size: nat, supply: nat, r: nat, d: Client)
    requires Consistent(c) && |d.v.mem| == WORD && 0 < size && b in c.live && Step(c, Realloc(b, size, supply, r), d)
    ensures r == 0 ==> d == c
    ensures r != 0 ==> Carried(c.v.mem, d.v.mem, r, Pointer(b), if size < Space(b) then size else Space(b))
  {
    LiveBlock(c, b);
    var i: nat :| IsAt(c.v, b, i) && ReallocStep(c.v, i, size, d.v, r);
    if r != 0 { ReallocCarries(c.v, b, size, i, d.v, r); }
  }

  // ---------------------------------------------------------------- what a caller can count on

  /** The bytes a kmalloc or kcalloc is about. */
  function Bytes(call: Call): nat
    requires call.Malloc? || call.Calloc?
  {
    if call.Malloc? then call.size else call.bytes
  }

  lemma PlentyOfPages(brk: nat, want: nat, supply: nat)
    requires Growable(brk, want) && supply >= WORD / 4096
    ensures !Short(brk, want, supply)
  {
  }

  ghost predicate NoneFits(v: HeapView, want: nat) {
    forall b :: b in v.blocks && b.free ==> Space(b) < want
  }

  lemma NoneFitsIff(v: HeapView, want: nat)
    ensures NoneFits(v, want) <==> FirstFit(v.blocks, want) >= |v.blocks|
  {
    assert v.blocks[..|v.blocks|] == v.blocks;
  }

  /** In every run, with pages to spare for any growth, kmalloc and kcalloc return NULL only for a request that no
      block fits and whose increment sbrk refuses as negative. */
  lemma RunServes(cs: seq<Client>, calls: seq<Call>, i: nat)
    requires Run(cs, calls) && i < |calls| && (calls[i].Malloc? || calls[i].Calloc?) && calls[i].supply >= WORD / 4096
    ensures var v, want := cs[i].v, Align(Bytes(calls[i]));
            calls[i].r == 0 <==> NoneFits(v, want) && Refused(v.start, v.brk, want)
  {
    var v, want := cs[i].v, Align(Bytes(calls[i]));
    assert Called(cs[i], calls[i], cs[i + 1]);
    if Growable(v.brk, want) { PlentyOfPages(v.brk, want, calls[i].supply); }
    NoneFitsIff(v, want);
    NeverBoth(v, Bytes(calls[i]), calls[i].supply);
  }

  lemma NeverBoth(v: HeapView, bytes: nat, supply: nat)
    requires NoWrap(v, bytes) && (Growable(v.brk, Align(bytes)) ==> !Short(v.brk, Align(bytes), supply))
    ensures Denied(v, bytes, supply) <==> FirstFit(v.blocks, Align(bytes)) >= |v.blocks| && Refused(v.start, v.brk, Align(bytes))
  {
  }

  /** However few pages there are: NULL exactly if no block fits and sbrk refuses, or the growth takes more pages than
      there are. */
  lemma RunDenies(cs: seq<Client>, calls: seq<Call>, i: nat)
    requires Run(cs, calls) && i < |calls| && (calls[i].Malloc? || calls[i].Calloc?)
    ensures var v, want := cs[i].v, Align(Bytes(calls[i]));
            calls[i].r == 0 <==> NoneFits(v, want) && (Refused(v.start, v.brk, want) || Short(v.brk, want, calls[i].supply))
  {
    assert Called(cs[i], calls[i], cs[i + 1]);
    NoneFitsIff(cs[i].v, Align(Bytes(calls[i])));
  }

  /** The same for a krealloc that has to grow its block; one that need not never fails, and stays where it is. */
  lemma ReallocServes(c: Client, b: Block, size: nat, supply: nat, r: nat, d: Client)
    requires Called(c, Realloc(b, size, supply, r), d)
    ensures Space(b) >= size ==> r == Pointer(b) && d.v.brk == c.v.brk
    ensures Space(b) < size ==>
      (r == 0 <==> NoneFits(c.v, Align(size)) && (Refused(c.v.start, c.v.brk, Align(size)) || Short(c.v.brk, Align(size), supply)))
  {
    var i: nat :| IsAt(c.v, b, i) && ReallocStep(c.v, i, size, d.v, r);
    NoneFitsIff(c.v, Align(size));
  }

  /** What kcalloc returns is zero throughout. */
  lemma CallocZeroes(c: Client, nmemb: nat, size: nat, bytes: nat, supply: nat, r: nat, d: Client)
    requires Called(c, Call.Calloc(nmemb, size, bytes, supply, r), d) && r != 0 && bytes == nmemb * size
    ensures forall k :: r <= k < r + bytes && k < |d.v.mem| ==> d.v.mem[k] == 0
  {
  }

  /** What was freed can be had again: a free block covers all of it. */
  lemma FreeServes(c: Client, b: Block, d: Client)
    requires Consistent(c) && Called(c, Free(b), d)
    ensures b !in d.live && Reusable(d.v.blocks, b)
  {
    var i: nat :| IsAt(c.v, b, i) && FreeStep(c.v, i, d.v);
    assert Tiled(c.v.blocks, c.v.start, c.v.brk - 8);
    ReleaseCovers(c.v.blocks, c.v.start, c.v.brk - 8, i);
  }

  /** Of the blocks that fit kmalloc takes the lowest. */
  lemma MallocFirst(c: Client, size: nat, supply: nat, r: nat, d: Client, b: Block)
    requires Consistent(c) && Called(c, Call.Malloc(size, supply, r), d)
    requires b in c.v.blocks && b.free && Space(b) >= Align(size)
    ensures r != 0 && r <= Pointer(b)
  {
    var k := FirstFit(c.v.blocks, Align(size));
    var i: nat :| i < |c.v.blocks| && c.v.blocks[i] == b;
    NotBefore(c.v.blocks, Align(size), k, i);
    if k < i { InOrder(c.v.blocks, c.v.start, c.v.brk - 8, k, i); }
  }

  lemma NotBefore(bs: seq<Block>, want: nat, k: nat, i: nat)
    requires IsFirstFit(bs, want, k) && i < |bs| && Fits(bs[i], want)
    ensures k <= i
  {
    assert forall j :: 0 <= j < k ==> bs[j] in bs[..k];
  }

  /** kmalloc is thrifty: it wastes less than 24 bytes, leaves the rest of the block it cut free, and moves the
      break only if no block fits, and then by the block and its header. */
  lemma MallocThrifty(c: Client, size: nat, supply: nat, r: nat, d: Client)
    requires Consistent(c) && Called(c, Call.Malloc(size, supply, r), d) && r != 0
    ensures var n, k := NewBlock(c.v, size), FirstFit(c.v.blocks, Align(size));
      && Align(size) <= Space(n) < Align(size) + 24
      && if k < |c.v.blocks| then
           d.v.brk == c.v.brk && (n.next == c.v.blocks[k].next || Block(n.next, c.v.blocks[k].next, true) in d.v.blocks)
         else
           d.v.brk == c.v.brk + Align(size) + 8 && Space(n) == Align(size)
  {
    var k := FirstFit(c.v.blocks, Align(size));
    if k < |c.v.blocks| { ReserveThrifty(c.v.blocks, k, Align(size)); }
  }

  /** A krealloc that shrinks gives back what it cuts off. */
  lemma ReallocThrifty(c: Client, b: Block, size: nat, supply: nat, r: nat, d: Client)
    requires Consistent(c) && Called(c, Realloc(b, size, supply, r), d) && size <= Space(b)
    ensures var n := Reallocated(c, b, size);
      n in d.v.blocks && Pointer(n) == r && size <= Space(n) < Align(size) + 24
      && (n.next == b.next || Block(n.next, b.next, true) in d.v.blocks)
  {
    var i: nat :| IsAt(c.v, b, i) && ReallocStep(c.v, i, size, d.v, r);
    AlignExact(size);
    SplitThrifty(c.v.blocks, i, size);
  }

  // ---------------------------------------------------------------- coalescing over whole runs

  lemma MallocCanonical(v: HeapView, size: nat, w: HeapView, r: nat)
    requires Shape(v) && v.start + 8 < v.brk && size < WORD && MallocStep(v, size, w, r) && Canonical(v.blocks)
    ensures Canonical(w.blocks)
  {
    AlignExact(size);
    var k := FirstFit(v.blocks, Align(size));
    if k < |v.blocks| {
      ReserveCanonical(v.blocks, v.start, v.brk - 8, k, Align(size));
    } else if r != 0 {
      LastNext(v.blocks, v.start, v.brk - 8);
      WholeBlock(v.brk - 8, Align(size));
      GrowCanonical(v.blocks, Block(v.brk - 8, v.brk + Align(size), false));
    }
  }

  lemma WholeBlock(a: nat, want: nat)
    requires a % 8 == 0 && want % 8 == 0
    ensures (a + 8 + want) % 8 == 0
  {
  }

  lemma LastNext(bs: seq<Block>, s: nat, e: nat)
    requires Tiled(bs, s, e) && s < e
    ensures bs != [] && bs[|bs| - 1] in bs && bs[|bs| - 1].next == e
  {
    TiledApart(bs, s, e, |bs| - 1);
  }

  lemma CallocCanonical(v: HeapView, bytes: nat, w: HeapView, r: nat)
    requires Shape(v) && v.start + 8 < v.brk && bytes < WORD && CallocStep(v, bytes, w, r) && Canonical(v.blocks)
    ensures Canonical(w.blocks)
  {
    var u :| MallocStep(v, bytes, u, r) && w == u.(mem := w.mem);
    MallocCanonical(v, bytes, u, r);
  }

  lemma FreeCanonical(v: HeapView, b: Block, w: HeapView)
    requires Shape(v) && FreesTo(v, b, w) && Canonical(v.blocks)
    ensures Canonical(w.blocks)
  {
    var i: nat :| IsAt(v, b, i) && FreeStep(v, i, w);
    ReleaseCanonical(v.blocks, i);
  }

  /** Without krealloc, every call keeps the heap free of neighbouring free blocks and of unaligned headers. */
  lemma StepCanonical(c: Client, call: Call, d: Client)
    requires Shape(c.v) && c.v.start + 8 < c.v.brk && Obeys(c, call) && Step(c, call, d) && !call.Realloc?
    requires Canonical(c.v.blocks)
    ensures Canonical(d.v.blocks)
  {
    match call
    case Malloc(size, _, r) => MallocCanonical(c.v, size, d.v, r);
    case Calloc(_, _, bytes, _, r) => CallocCanonical(c.v, bytes, d.v, r);
    case Free(b) => FreeCanonical(c.v, b, d.v);
    case Write(_, _) =>
    case Elsewhere(_) =>
  }

  lemma {:induction false} RunCanonical(cs: seq<Client>, calls: seq<Call>, i: nat)
    requires Run(cs, calls) && Consistent(cs[0]) && Canonical(cs[0].v.blocks) && i < |cs|
    requires forall k :: 0 <= k < |calls| ==> !calls[k].Realloc?
    ensures Canonical(cs[i].v.blocks)
  {
    if i > 0 {
      RunCanonical(cs, calls, i - 1);
      RunConsistent(cs, calls, i - 1);
      StepCanonical(cs[i - 1], calls[i - 1], cs[i]);
    }
  }

  /** A run that has freed everything, in whatever order and however often the heap grew in between,
      ends with one single free block. */
  lemma EverythingFreed(cs: seq<Client>, calls: seq<Call>, i: nat)
    requires Run(cs, calls) && Consistent(cs[0]) && Canonical(cs[0].v.blocks) && i < |cs|
    requires forall k :: 0 <= k < |calls| ==> !calls[k].Realloc?
    requires cs[i].live == map[]
    ensures cs[i].v.brk >= 8 && cs[i].v.blocks == [Block(cs[i].v.start, cs[i].v.brk - 8, true)]
  {
    RunCanonical(cs, calls, i);
    RunConsistent(cs, calls, i);
    NothingLive(cs[i]);
  }

  lemma NothingLive(c: Client)
    requires Consistent(c) && Canonical(c.v.blocks) && c.live == map[]
    ensures c.v.brk >= 8 && c.v.blocks == [Block(c.v.start, c.v.brk - 8, true)]
  {
    AllFreeIsOneBlock(c.v.blocks, c.v.start, c.v.brk - 8);
  }

  lemma UndoReserve(bs: seq<Block>, s: nat, e: nat, k: nat, want: nat, cs: seq<Block>, i: nat)
    requires Tiled(bs, s, e) && Canonical(bs) && k < |bs| && Fits(bs[k], want)
    requires cs == Reserve(bs, k, want) && i < |cs| && cs[i] == ReservedPieces(bs[k], want)[0]
    ensures Release(cs, i) == bs
  {
    ReserveTiled(bs, s, e, k, want);
    assert cs[k] == ReservedPieces(bs[k], want)[0];
    SameIndex(cs, s, e, i, k);
    ReleaseUndoesReserve(bs, s, e, k, want);
  }

  lemma Served(v: HeapView, size: nat, u: HeapView, r: nat)
    requires FirstFit(v.blocks, Align(size)) < |v.blocks| && MallocStep(v, size, u, r)
    ensures var k := FirstFit(v.blocks, Align(size));
            Fits(v.blocks[k], Align(size)) && NewBlock(v, size) == ReservedPieces(v.blocks[k], Align(size))[0]
            && u == v.(mem := u.mem, blocks := Reserve(v.blocks, k, Align(size)))
  {
  }

  lemma UndoServed(v: HeapView, size: nat, u: HeapView, k: nat, i: nat)
    requires Shape(v) && Canonical(v.blocks) && k < |v.blocks| && Fits(v.blocks[k], Align(size))
    requires u.blocks == Reserve(v.blocks, k, Align(size))
    requires i < |u.blocks| && u.blocks[i] == ReservedPieces(v.blocks[k], Align(size))[0]
    ensures Release(u.blocks, i) == v.blocks
  {
    UndoReserve(v.blocks, v.start, v.brk - 8, k, Align(size), u.blocks, i);
  }

  /** kfree right after a kmalloc that was served from a free block restores the block list. */
  lemma FreeUndoesMalloc(v: HeapView, size: nat, u: HeapView, r: nat, w: HeapView)
    requires Shape(v) && Canonical(v.blocks) && FirstFit(v.blocks, Align(size)) < |v.blocks|
    requires MallocStep(v, size, u, r) && FreesTo(u, NewBlock(v, size), w)
    ensures w.blocks == v.blocks && w.brk == v.brk && w.start == v.start
  {
    Served(v, size, u, r);
    var i: nat :| IsAt(u, NewBlock(v, size), i) && FreeStep(u, i, w);
    UndoServed(v, size, u, FirstFit(v.blocks, Align(size)), i);
  }

  lemma {:induction false} SameIndex(bs: seq<Block>, s: nat, e: nat, i: nat, j: nat)
    requires Tiled(bs, s, e) && i < |bs| && j < |bs| && bs[i] == bs[j]
    ensures i == j
  {
    if i == 0 || j == 0 {
      FirstBlock(bs, s, e, i);
      FirstBlock(bs, s, e, j);
    } else {
      SameIndex(bs[1..], bs[0].next, e, i - 1, j - 1);
    }
  }

  /** What heap_init leaves behind is a canonical heap that nobody holds anything of. */
  lemma InitialClient(v: HeapView)
    requires Inv(v) && v.start % 8 == 0 && v.brk % 8 == 0 && v.blocks == [Block(v.start, v.brk - 8, true)]
    ensures Consistent(Client(v, map[])) && Canonical(v.blocks)
  {
    assert Used(v.blocks) == {};
    assert (v.brk - 8) % 8 == 0;
  }
}
