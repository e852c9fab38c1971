/** The kernel heap in the hands of its clients: what they do to the bytes in memory is a run of module HeapRuns. */
module HeapClients {
  import opened ByteStore
  import opened HeapBlocks
  import opened Heap
  import opened HeapRuns

  /** The heap object and the clients' books describe the same heap. */
  ghost predicate Matches(h: KernelHeap, c: Client)
    reads h, h.mem, h.pb
  {
    h.Valid() && c.v == h.View() && Consistent(c)
  }

  /** A block that is live is at some place of the list. */
  ghost function PlaceOf(c: Client, b: Block): (i: nat)
    requires Consistent(c) && b in c.live
    ensures IsAt(c.v, b, i) && !b.free && PointsTo(c.v, Pointer(b), i)
  {
    assert b in Used(c.v.blocks);
    var i: nat :| i < |c.v.blocks| && c.v.blocks[i] == b;
    i
  }

  // ---------------------------------------------------------------- each call on the heap is a step of a run

  method Malloc(h: KernelHeap, ghost c: Client, size: nat, supply: nat) returns (r: nat, ghost d: Client)
    requires Matches(h, c) && size <= WORD - 8 && NoWrap(c.v, size)
    modifies h, h.mem, h.pb
    ensures Matches(h, d) && Called(c, Call.Malloc(size, supply, r), d)
  {
    r := h.Kmalloc(size, supply);
    d := Client(h.View(), Granted(c.live, r, NewBlock(c.v, size), size));
    InvIs(d.v);
    StepConsistent(c, Call.Malloc(size, supply, r), d);
  }

  method Calloc(h: KernelHeap, ghost c: Client, nmemb: nat, size: nat, supply: nat, ghost bytes: nat)
    returns (r: nat, ghost d: Client)
    requires Matches(h, c) && bytes == nmemb * size && bytes <= WORD - 8 && NoWrap(c.v, bytes)
    modifies h, h.mem, h.pb
    ensures Matches(h, d) && Called(c, Call.Calloc(nmemb, size, bytes, supply, r), d)
  {
    CutBelow(bytes);
    r := h.Kcalloc(nmemb, size, supply, bytes);
    d := Cleared(h, c, nmemb, size, bytes, supply, r);
  }

  /** The step that a kcalloc has taken. */
  lemma Cleared(h: KernelHeap, c: Client, nmemb: nat, size: nat, bytes: nat, supply: nat, r: nat) returns (d: Client)
    requires h.Valid() && Consistent(c) && bytes == nmemb * size && bytes <= WORD - 8 && NoWrap(c.v, bytes)
    requires CallocStep(c.v, bytes, h.View(), r) && (r == 0 <==> Denied(c.v, bytes, supply))
    ensures Matches(h, d) && Called(c, Call.Calloc(nmemb, size, bytes, supply, r), d)
  {
    d := Client(h.View(), Granted(c.live, r, NewBlock(c.v, bytes), bytes));
    InvIs(d.v);
    StepConsistent(c, Call.Calloc(nmemb, size, bytes, supply, r), d);
  }

  method Free(h: KernelHeap, ghost c: Client, ptr: nat, ghost b: Block) returns (ghost d: Client)
    requires Matches(h, c) && b in c.live && ptr == Pointer(b)
    modifies h, h.mem
    ensures Matches(h, d) && Called(c, Call.Free(b), d)
  {
    ghost var i := PlaceOf(c, b);
    h.Kfree(ptr, i);
    d := Client(h.View(), c.live - {b});
    InvIs(d.v);
    StepConsistent(c, Call.Free(b), d);
  }

  method Realloc(h: KernelHeap, ghost c: Client, ptr: nat, size: nat, supply: nat, ghost b: Block) returns (r: nat, ghost d: Client)
    requires Matches(h, c) && b in c.live && ptr == Pointer(b)
    requires 0 < size <= WORD - 8 && (Space(b) >= size || NoWrap(c.v, size))
    modifies h, h.mem, h.pb
    ensures Matches(h, d) && Called(c, Call.Realloc(b, size, supply, r), d)
  {
    ghost var i := PlaceOf(c, b);
    r := h.Krealloc(ptr, size, supply, i);
    d := Client(h.View(), Regranted(c, b, size, r));
    InvIs(d.v);
    StepConsistent(c, Call.Realloc(b, size, supply, r), d);
  }

  /** A client stores a byte in its block. */
  method Write(h: KernelHeap, ghost c: Client, address: nat, value: Byte, ghost b: Block) returns (ghost d: Client)
    requires Matches(h, c) && b in c.live && Pointer(b) <= address < b.next
    modifies h.mem
    ensures Matches(h, d) && Called(c, Call.Write(b, d.v.mem), d)
    ensures forall k :: 0 <= k < h.mem.Length ==> h.mem[k] == if k == address then value else old(h.mem[k])
  {
    LiveBlock(c, b);
    h.mem[address] := value;
    d := c.(v := h.View());
    StepConsistent(c, Call.Write(b, d.v.mem), d);
  }

  /** Somebody stores a byte outside the heap. */
  method WriteElsewhere(h: KernelHeap, ghost c: Client, address: nat, value: Byte) returns (ghost d: Client)
    requires Matches(h, c) && address < h.mem.Length && !(h.pb.start <= address < h.pb.brk)
    modifies h.mem
    ensures Matches(h, d) && Called(c, Elsewhere(d.v.mem), d)
    ensures forall k :: 0 <= k < h.mem.Length ==> h.mem[k] == if k == address then value else old(h.mem[k])
  {
    h.mem[address] := value;
    d := c.(v := h.View());
    StepConsistent(c, Elsewhere(d.v.mem), d);
  }

  // ---------------------------------------------------------------- any clients at all

  ghost predicate Named(live: map<Block, nat>, p: nat, size: nat) {
    exists b :: b in live && Pointer(b) == p && live[b] == size
  }

  /** What the clients remember, pointers and requested sizes, is what the books say. */
  ghost predicate Remembers(held: map<nat, nat>, live: map<Block, nat>) {
    (forall b :: b in live ==> Pointer(b) in held && held[Pointer(b)] == live[b])
    && forall p :: p in held ==> Named(live, p, held[p])
  }

  lemma SamePointer(c: Client, a: Block, b: Block)
    requires Consistent(c) && a in c.live && b in c.live && Pointer(a) == Pointer(b)
    ensures a == b
  {
    if a != b { LiveDisjoint(c, a, b); }
  }

  lemma RemembersNew(c: Client, held: map<nat, nat>, live: map<Block, nat>, n: Block, size: nat)
    requires Consistent(c) && Remembers(held, live) && c.live == live[n := size] && n !in live
    ensures Remembers(held[Pointer(n) := size], c.live)
  {
    var held2 := held[Pointer(n) := size];
    forall b | b in c.live ensures Pointer(b) in held2 && held2[Pointer(b)] == c.live[b] {
      if Pointer(b) == Pointer(n) { SamePointer(c, b, n); }
    }
    forall p | p in held2 ensures Named(c.live, p, held2[p]) {
      if p == Pointer(n) {
        assert n in c.live && c.live[n] == size;
      } else {
        var b :| b in live && Pointer(b) == p && live[b] == held[p];
        assert b in c.live && c.live[b] == held2[p];
      }
    }
  }

  lemma RemembersLess(c: Client, held: map<nat, nat>, b: Block)
    requires Consistent(c) && Remembers(held, c.live) && b in c.live
    ensures Remembers(held - {Pointer(b)}, c.live - {b})
  {
    var held2, live := held - {Pointer(b)}, c.live - {b};
    forall a | a in live ensures Pointer(a) in held2 && held2[Pointer(a)] == live[a] {
      if Pointer(a) == Pointer(b) { SamePointer(c, a, b); }
    }
    forall p | p in held2 ensures Named(live, p, held2[p]) {
      var a :| a in c.live && Pointer(a) == p && c.live[a] == held[p];
      assert a in live && live[a] == held2[p];
    }
  }

  /** Can a request of this size be served, or be rightly refused? */
  method CanServe(h: KernelHeap, size: nat) returns (ok: bool)
    requires h.Valid() && size <= WORD - 8
    ensures ok <==> NoWrap(h.View(), size)
  {
    var want := Align(size);
    ghost var i;
    var node: nat;
    node, i := h.FindFit(want);
    FirstFitUnique(h.blocks, want, i);
    ok := ReadHeader(h.mem, node).eom == 0 || Growable(h.pb.brk, want) || Refused(h.pb.start, h.pb.brk, want);
  }

  /** What an arbitrary client may ask for. */
  datatype Wish = AskMalloc(size: nat) | AskCalloc(nmemb: nat, size: nat) | AskRealloc(p: nat, size: nat) | AskFree(p: nat)
                | AskWrite(p: nat, offset: nat, value: Byte) | AskStore(address: nat, value: Byte)

  method GrantMalloc(h: KernelHeap, held: map<nat, nat>, ghost c: Client, size: nat, supply: nat)
    returns (held2: map<nat, nat>, ghost call: Call, ghost d: Client)
    requires Matches(h, c) && Remembers(held, c.live) && size <= WORD - 8 && NoWrap(c.v, size)
    modifies h, h.mem, h.pb
    ensures Matches(h, d) && Remembers(held2, d.live) && Called(c, call, d)
    ensures call.Malloc? && call.size == size && call.supply == supply
  {
    var r;
    r, d := Malloc(h, c, size, supply);
    call := Call.Malloc(size, supply, r);
    held2 := if r == 0 then held else held[r := size];
    if r != 0 { NewRemembered(c, held, size, d, r); }
  }

  lemma NewRemembered(c: Client, held: map<nat, nat>, size: nat, d: Client, r: nat)
    requires Consistent(c) && Consistent(d) && Remembers(held, c.live) && r != 0
    requires MallocStep(c.v, size, d.v, r) && d.live == c.live[NewBlock(c.v, size) := size]
    ensures Remembers(held[r := size], d.live)
  {
    NewPointer(c.v, c.live, size, d.v, r);
    RemembersNew(d, held, c.live, NewBlock(c.v, size), size);
  }

  lemma NewPointer(v: HeapView, live: map<Block, nat>, size: nat, w: HeapView, r: nat)
    requires Shape(v) && Books(Used(v.blocks), live) && MallocStep(v, size, w, r) && r != 0
    ensures NewBlock(v, size) !in live && r == Pointer(NewBlock(v, size))
  {
    MallocAdds(v, size, w, r);
  }

  method GrantCalloc(h: KernelHeap, held: map<nat, nat>, ghost c: Client, nmemb: nat, size: nat, bytes: nat, supply: nat)
    returns (held2: map<nat, nat>, ghost call: Call, ghost d: Client)
    requires Matches(h, c) && Remembers(held, c.live) && bytes == nmemb * size && bytes <= WORD - 8 && NoWrap(c.v, bytes)
    modifies h, h.mem, h.pb
    ensures Matches(h, d) && Remembers(held2, d.live) && Called(c, call, d)
    ensures call.Calloc? && call.nmemb == nmemb && call.size == size && call.supply == supply
  {
    var r;
    r, d := Calloc(h, c, nmemb, size, supply, bytes);
    call := Call.Calloc(nmemb, size, bytes, supply, r);
    held2 := if r == 0 then held else held[r := bytes];
    if r != 0 { ClearedRemembered(c, held, bytes, d, r); }
  }

  lemma ClearedRemembered(c: Client, held: map<nat, nat>, bytes: nat, d: Client, r: nat)
    requires Consistent(c) && Consistent(d) && Remembers(held, c.live) && r != 0
    requires CallocStep(c.v, bytes, d.v, r) && d.live == c.live[NewBlock(c.v, bytes) := bytes]
    ensures Remembers(held[r := bytes], d.live)
  {
    ClearedPointer(c.v, c.live, bytes, d.v, r);
    RemembersNew(d, held, c.live, NewBlock(c.v, bytes), bytes);
  }

  lemma ClearedPointer(v: HeapView, live: map<Block, nat>, bytes: nat, w: HeapView, r: nat)
    requires Shape(v) && Books(Used(v.blocks), live) && CallocStep(v, bytes, w, r) && r != 0
    ensures NewBlock(v, bytes) !in live && r == Pointer(NewBlock(v, bytes))
  {
    var u :| MallocStep(v, bytes, u, r) && w == u.(mem := w.mem);
    NewPointer(v, live, bytes, u, r);
  }

  method GrantFree(h: KernelHeap, held: map<nat, nat>, ghost c: Client, p: nat)
    returns (held2: map<nat, nat>, ghost call: Call, ghost d: Client)
    requires Matches(h, c) && Remembers(held, c.live) && p in held
    modifies h, h.mem
    ensures Matches(h, d) && Remembers(held2, d.live) && Called(c, call, d)
    ensures call.Free? && Pointer(call.b) == p
  {
    assert Named(c.live, p, held[p]);
    ghost var b :| b in c.live && Pointer(b) == p;
    RemembersLess(c, held, b);
    d := Free(h, c, p, b);
    call := Call.Free(b);
    held2 := held - {p};
  }

  method GrantRealloc(h: KernelHeap, held: map<nat, nat>, ghost c: Client, p: nat, size: nat, supply: nat)
    returns (held2: map<nat, nat>, ghost call: Call, ghost d: Client)
    requires Matches(h, c) && Remembers(held, c.live) && p in held && 0 < size <= WORD - 8
    requires size <= held[p] || NoWrap(c.v, size)
    modifies h, h.mem, h.pb
    ensures Matches(h, d) && Remembers(held2, d.live) && Called(c, call, d)
    ensures call.Realloc? && Pointer(call.b) == p && call.size == size && call.supply == supply
  {
    ghost var b := HeldBlock(held, c.live, p);
    var r;
    r, d := Realloc(h, c, p, size, supply, b);
    call := Call.Realloc(b, size, supply, r);
    held2 := held;
    if r != 0 {
      MovedRemembered(c, held, b, size, supply, d, r);
      held2 := (held - {p})[r := size];
    }
  }

  lemma HeldBlock(held: map<nat, nat>, live: map<Block, nat>, p: nat) returns (b: Block)
    requires Remembers(held, live) && p in held
    ensures b in live && Pointer(b) == p && live[b] == held[p]
  {
    assert Named(live, p, held[p]);
    b :| b in live && Pointer(b) == p && live[b] == held[p];
  }

  lemma MovedRemembered(c: Client, held: map<nat, nat>, b: Block, size: nat, supply: nat, d: Client, r: nat)
    requires Consistent(c) && Consistent(d) && Remembers(held, c.live) && r != 0
    requires Called(c, Call.Realloc(b, size, supply, r), d)
    ensures Remembers((held - {Pointer(b)})[r := size], d.live)
  {
    var n := Reallocated(c, b, size);
    ReallocGrants(c, b, size, supply, r, d);
    RemembersLess(c, held, b);
    Exchanged(c, b, size, d.v, r);
    RemembersNew(d, held - {Pointer(b)}, c.live - {b}, n, size);
  }

  /** In the books a krealloc exchanges one block for another. */
  lemma Exchanged(c: Client, b: Block, size: nat, w: HeapView, r: nat)
    requires Consistent(c) && b in c.live && r != 0 && ReallocsTo(c.v, b, size, w, r)
    ensures var n := Reallocated(c, b, size);
      n !in c.live - {b} && Regranted(c, b, size, r) == (c.live - {b})[n := size]
  {
    var i: nat :| IsAt(c.v, b, i) && ReallocStep(c.v, i, size, w, r);
    if Space(b) >= size {
      if Reallocated(c, b, size) != b { PieceNew(c, i, size); }
    } else {
      var u, x, j :| MovedVia(c.v, b, size, u, x, j, w, r);
      NewBlockNotLive(c.v, c.live, size, u, r);
      TakenOver(c.live, b, NewBlock(c.v, size), size);
    }
  }

  lemma TakenOver(live: map<Block, nat>, b: Block, n: Block, size: nat)
    requires b in live && n !in live
    ensures live[n := size] - {b} == (live - {b})[n := size]
  {
  }

  lemma PieceNew(c: Client, i: nat, size: nat)
    requires Consistent(c) && i < |c.v.blocks| && c.v.blocks[i] in c.live
    requires Pieces(c.v.blocks[i], size, Align(size))[0] != c.v.blocks[i]
    ensures Pieces(c.v.blocks[i], size, Align(size))[0] !in c.live
  {
    var n := Pieces(c.v.blocks[i], size, Align(size))[0];
    if n in c.live { PieceNotLive(c.v, c.live, i, size, n); }
  }

  method GrantWrite(h: KernelHeap, held: map<nat, nat>, ghost c: Client, p: nat, offset: nat, value: Byte)
    returns (ghost call: Call, ghost d: Client)
    requires Matches(h, c) && Remembers(held, c.live) && p in held && offset < held[p]
    modifies h.mem
    ensures Matches(h, d) && Remembers(held, d.live) && Called(c, call, d)
    ensures call.Write? && Pointer(call.b) == p
  {
    assert Named(c.live, p, held[p]);
    ghost var b :| b in c.live && Pointer(b) == p && c.live[b] == held[p];
    d := Write(h, c, p + offset, value, b);
    call := Call.Write(b, d.v.mem);
  }

  /** Nothing happens. */
  lemma Idle(c: Client)
    requires Consistent(c)
    ensures Called(c, Elsewhere(c.v.mem), c)
  {
  }

  ghost predicate IsLive(live: map<Block, nat>, p: nat) {
    exists b :: b in live && Pointer(b) == p
  }

  /** A live pointer to a block that was asked for with at least `size` bytes. */
  ghost predicate LiveFor(live: map<Block, nat>, p: nat, size: nat) {
    exists b :: b in live && Pointer(b) == p && live[b] >= size
  }

  /** Whoever is entitled to what they wish for gets that very call; of others nothing comes. */
  ghost predicate Heeds(c: Client, wish: Wish, supply: nat, call: Call) {
    match wish
    case AskMalloc(size) =>
      if size <= WORD - 8 && NoWrap(c.v, size) then call.Malloc? && call.size == size && call.supply == supply
      else call == Elsewhere(c.v.mem)
    case AskCalloc(nmemb, size) =>
      if nmemb * size <= WORD - 8 && NoWrap(c.v, nmemb * size) then
        call.Calloc? && call.nmemb == nmemb && call.size == size && call.supply == supply
      else call == Elsewhere(c.v.mem)
    case AskRealloc(p, size) =>
      if IsLive(c.live, p) && 0 < size <= WORD - 8 && (NoWrap(c.v, size) || LiveFor(c.live, p, size)) then
        call.Realloc? && Pointer(call.b) == p && call.size == size && call.supply == supply
      else call == Elsewhere(c.v.mem)
    case AskFree(p) => if IsLive(c.live, p) then call.Free? && Pointer(call.b) == p else call == Elsewhere(c.v.mem)
    case AskWrite(p, offset, _) =>
      if LiveFor(c.live, p, offset + 1) then call.Write? && Pointer(call.b) == p else call == Elsewhere(c.v.mem)
    case AskStore(_, _) => call.Elsewhere?
  }

  lemma Remembered(held: map<nat, nat>, live: map<Block, nat>, p: nat, size: nat)
    requires Remembers(held, live)
    ensures p in held <==> IsLive(live, p)
    ensures p in held && size <= held[p] <==> LiveFor(live, p, size)
  {
    if p in held { assert Named(live, p, held[p]); }
  }

  /** One wish, if the client is entitled to it: pointers it was given, sizes that kmalloc can deal with. */
  method Grant(h: KernelHeap, held: map<nat, nat>, ghost c: Client, wish: Wish, supply: nat)
    returns (held2: map<nat, nat>, ghost call: Call, ghost d: Client)
    requires Matches(h, c) && Remembers(held, c.live)
    modifies h, h.mem, h.pb
    ensures Matches(h, d) && Remembers(held2, d.live) && Called(c, call, d)
    ensures Heeds(c, wish, supply, call)
  {
    held2, call, d := held, Elsewhere(c.v.mem), c;
    Idle(c);
    match wish
    case AskMalloc(size) =>
      if size <= WORD - 8 {
        var ok := CanServe(h, size);
        if ok { held2, call, d := GrantMalloc(h, held, c, size, supply); }
      }
    case AskCalloc(nmemb, size) =>
      var bytes := nmemb * size;
      if bytes <= WORD - 8 {
        var ok := CanServe(h, bytes);
        if ok { held2, call, d := GrantCalloc(h, held, c, nmemb, size, bytes, supply); }
      }
    case AskRealloc(p, size) =>
      Remembered(held, c.live, p, size);
      if p in held && 0 < size <= WORD - 8 {
        var ok := CanServe(h, size);
        if ok || size <= held[p] { held2, call, d := GrantRealloc(h, held, c, p, size, supply); }
      }
    case AskFree(p) =>
      Remembered(held, c.live, p, 0);
      if p in held { held2, call, d := GrantFree(h, held, c, p); }
    case AskWrite(p, offset, value) =>
      Remembered(held, c.live, p, offset + 1);
      if p in held && offset < held[p] { call, d := GrantWrite(h, held, c, p, offset, value); }
    case AskStore(address, value) =>
      if address < h.mem.Length && !(h.pb.start <= address < h.pb.brk) {
        d := WriteElsewhere(h, c, address, value);
        call := Elsewhere(d.v.mem);
      }
  }

  /** Whatever clients wish for, in whatever order and with however many pages to be had each time: what happens to
      the bytes of the heap is a run, and it ends in a state where the heap in memory and the clients agree. */
  method AnyClients(h: KernelHeap, wishes: seq<Wish>, supplies: seq<nat>)
    returns (ghost cs: seq<Client>, ghost calls: seq<Call>)
    requires h.Valid() && Used(h.blocks) == {} && |supplies| == |wishes|
    modifies h, h.mem, h.pb
    ensures |cs| == |wishes| + 1 && Run(cs, calls) && cs[0] == Client(old(h.View()), map[]) && Matches(h, cs[|wishes|])
    ensures forall k :: 0 <= k < |wishes| ==> Heeds(cs[k], wishes[k], supplies[k], calls[k])
  {
    ghost var c := Client(h.View(), map[]);
    var held: map<nat, nat> := map[];
    cs, calls := [c], [];
    for k := 0 to |wishes|
      invariant |cs| == k + 1 && cs[k] == c && cs[0] == Client(old(h.View()), map[])
      invariant Run(cs, calls) && Matches(h, c) && Remembers(held, c.live)
      invariant forall i :: 0 <= i < k ==> Heeds(cs[i], wishes[i], supplies[i], calls[i])
    {
      ghost var call, d;
      held, call, d := Grant(h, held, c, wishes[k], supplies[k]);
      RunOn(cs, calls, call, d);
      cs, calls, c := cs + [d], calls + [call], d;
    }
  }

  lemma RunOn(cs: seq<Client>, calls: seq<Call>, call: Call, d: Client)
    requires Run(cs, calls) && Called(cs[|calls|], call, d)
    ensures Run(cs + [d], calls + [call])
  {
    var cs2, calls2 := cs + [d], calls + [call];
    forall i: nat, j: nat | i < |calls2| && j == i + 1 ensures Called(cs2[i], calls2[i], cs2[j]) {
      if i < |calls| { assert Called(cs[i], calls[i], cs[j]); }
    }
  }
}
