/** Physical page frames handed out through a batch cache of 20 in front of the bitmap (paging/allocators.c). */
module FrameAllocator {
  import opened FrameBitmap

  const BATCH := 20

  /** Frame numbers: clear bits, frames fetched but not yet served, frames handed out, and frames lost to
      refills that ran dry half-way. */
  datatype Pool = Pool(free: set<nat>, cached: seq<nat>, held: set<nat>, stranded: set<nat>)

  ghost function Elems(q: seq<nat>): set<nat> {
    set f | f in q
  }

  ghost predicate Ascending(q: seq<nat>) {
    forall i, j :: 0 <= i < j < |q| ==> q[i] < q[j]
  }

  /** `batch` holds the lowest frames of `s`, in order. */
  ghost predicate IsLowest(batch: seq<nat>, s: set<nat>) {
    Ascending(batch) && Elems(batch) <= s && forall b, f :: b in batch && f in s - Elems(batch) ==> b < f
  }

  // ---------------------------------------------------------------- what the two calls do

  ghost predicate AllocStep(p: Pool, q: Pool, address: nat) {
    if p.cached != [] then
      address == 4096 * p.cached[0] && q == p.(cached := p.cached[1..], held := p.held + {p.cached[0]})
    else if |p.free| >= BATCH then
      exists batch :: RefillStep(p, q, address, batch)
    else
      address == 0 && q == p.(free := {}, stranded := p.stranded + p.free)
  }

  ghost predicate RefillStep(p: Pool, q: Pool, address: nat, batch: seq<nat>) {
    |batch| == BATCH && IsLowest(batch, p.free) && address == 4096 * batch[0]
    && q == Pool(p.free - Elems(batch), batch[1..], p.held + {batch[0]}, p.stranded)
  }

  ghost predicate FreeStep(p: Pool, q: Pool, address: nat) {
    q == p.(free := p.free + {address / 4096}, held := p.held - {address / 4096})
  }

  lemma {:induction false} AscendingCard(q: seq<nat>)
    requires Ascending(q)
    ensures |Elems(q)| == |q|
  {
    if q != [] {
      var last := q[|q| - 1];
      AscendingCard(q[..|q| - 1]);
      assert q == q[..|q| - 1] + [last];
      assert Elems(q) == Elems(q[..|q| - 1]) + {last};
    }
  }

  lemma SubsetCard(a: set<nat>, b: set<nat>)
    requires a <= b
    ensures |a| <= |b|
  {
    assert b == a + (b - a);
  }

  lemma DiffEmpty(a: set<nat>, b: set<nat>)
    requires b <= a && a - b == {}
    ensures a == b
  {
    assert a == b + (a - b);
  }

  class FrameSource {
    const bitmap: array<bv32>
    const preFrames: array<nat>
    var allocate: bool
    var pframe: nat
    ghost var cached: seq<nat>
    ghost var held: set<nat>
    ghost var stranded: set<nat>

    ghost predicate Valid()
      reads this, bitmap, preFrames
    {
      && bitmap.Length == WORDS && preFrames.Length == BATCH && pframe <= BATCH
      && (forall f :: 0 <= f < 256 ==> InUse(bitmap[..], f))
      && if allocate then cached == [] else
           |cached| == BATCH - pframe && forall k :: pframe <= k < BATCH ==> preFrames[k] == 4096 * cached[k - pframe]
    }

    ghost function View(): Pool
      requires bitmap.Length == WORDS
      reads this, bitmap
    {
      Pool(FreeFrames(bitmap[..]), cached, held, stranded)
    }

    /** The state at boot: nothing cached, nothing handed out. */
    constructor (bitmap: array<bv32>)
      requires bitmap.Length == WORDS && forall f :: 0 <= f < 256 ==> InUse(bitmap[..], f)
      ensures Valid() && View() == Pool(FreeFrames(bitmap[..]), [], {}, {}) && this.bitmap == bitmap && fresh(preFrames)
    {
      this.bitmap, preFrames, allocate, pframe := bitmap, new nat[BATCH], true, 0;
      cached, held, stranded := [], {}, {};
    }

    /** Whoever the page belongs to, it is free afterwards. */
    method FreePage(address: nat)
      requires Valid() && 256 <= address / 4096 < FRAMES
      modifies this, bitmap
      ensures Valid() && FreeStep(old(View()), View(), address)
    {
      var index := address / 4096;
      UnsetFrame(bitmap, index);
      held := held - {index};
      assert FreeFrames(bitmap[..]) == FreeFrames(old(bitmap[..])) + {index};
    }

    /** The refill loop of pmm_alloc_page. On failure the frames taken so far are in nobody's hands. */
    method Refill() returns (ok: bool, ghost batch: seq<nat>)
      requires Valid()
      modifies bitmap, preFrames
      ensures forall f :: 0 <= f < 256 ==> InUse(bitmap[..], f)
      ensures IsLowest(batch, FreeFrames(old(bitmap[..])))
      ensures FreeFrames(bitmap[..]) == FreeFrames(old(bitmap[..])) - Elems(batch)
      ensures ok ==> |batch| == BATCH && forall k :: 0 <= k < BATCH ==> preFrames[k] == 4096 * batch[k]
      ensures !ok ==> |batch| < BATCH && FreeFrames(bitmap[..]) == {} && FreeFrames(old(bitmap[..])) == Elems(batch)
    {
      ghost var free := FreeFrames(bitmap[..]);
      batch := [];
      for i := 0 to BATCH
        invariant |batch| == i && IsLowest(batch, free)
        invariant forall f :: 0 <= f < 256 ==> InUse(bitmap[..], f)
        invariant FreeFrames(bitmap[..]) == free - Elems(batch)
        invariant forall k :: 0 <= k < i ==> preFrames[k] == 4096 * batch[k]
      {
        ghost var before := FreeFrames(bitmap[..]);
        var frame := AllocFrame(bitmap);
        if frame == 0 {
          DiffEmpty(free, Elems(batch));
          return false, batch;
        }
        preFrames[i] := frame;
        ghost var f := frame / 4096;
        assert FreeFrames(bitmap[..]) == before - {f};
        Extend(batch, free, f);
        batch := batch + [f];
      }
      ok := true;
    }

    method AllocPage() returns (address: nat)
      requires Valid()
      modifies this, bitmap, preFrames
      ensures Valid() && AllocStep(old(View()), View(), address)
    {
      if pframe == BATCH {
        allocate, cached := true, [];
      }
      if allocate {
        ghost var p := View();
        var ok;
        ghost var batch;
        ok, batch := Refill();
        AscendingCard(batch);
        if !ok {
          stranded := stranded + Elems(batch);
          return 0;
        }
        SubsetCard(Elems(batch), p.free);
        pframe := 0;
        allocate := false;
        cached := batch;
        address := preFrames[pframe];
        pframe := pframe + 1;
        cached, held := cached[1..], held + {cached[0]};
        assert RefillStep(p, View(), address, batch);
      } else {
        address := preFrames[pframe];
        pframe := pframe + 1;
        cached, held := cached[1..], held + {cached[0]};
      }
    }
  }

  /** The lowest remaining frame extends the batch of lowest frames. */
  lemma Extend(batch: seq<nat>, s: set<nat>, f: nat)
    requires IsLowest(batch, s) && f in s - Elems(batch) && forall g :: g in s - Elems(batch) ==> f <= g
    ensures IsLowest(batch + [f], s) && Elems(batch + [f]) == Elems(batch) + {f}
  {
    forall i | 0 <= i < |batch| ensures batch[i] < f { assert batch[i] in batch; }
    forall b, g | b in batch + [f] && g in s - Elems(batch + [f]) ensures b < g { assert g in s - Elems(batch); }
  }

  // ---------------------------------------------------------------- every run

  /** Every frame that was free at first is in exactly one of the four places; the others play no part. */
  ghost predicate Accounted(p: Pool, initial: set<nat>) {
    && p.free + Elems(p.cached) + p.held + p.stranded == initial
    && Elems(p.cached) !! p.free && p.held !! p.free && p.stranded !! p.free
    && p.held !! Elems(p.cached) && p.stranded !! Elems(p.cached) && p.stranded !! p.held
    && Ascending(p.cached)
  }

  datatype Call = Alloc(address: nat) | Free(address: nat)

  /** Clients free only pages they hold. */
  ghost predicate Step(p: Pool, call: Call, q: Pool) {
    match call
    case Alloc(a) => AllocStep(p, q, a)
    case Free(a) => a / 4096 in p.held && FreeStep(p, q, a)
  }

  ghost predicate Run(ps: seq<Pool>, calls: seq<Call>) {
    |ps| == |calls| + 1 && forall i :: 0 <= i < |calls| ==> StepAt(ps, calls, i)
  }

  ghost predicate StepAt(ps: seq<Pool>, calls: seq<Call>, i: nat)
    requires |ps| == |calls| + 1 && i < |calls|
  {
    Step(ps[i], calls[i], ps[i + 1])
  }

  lemma ServeAccounted(p: Pool, initial: set<nat>, q: Pool)
    requires Accounted(p, initial) && p.cached != []
    requires q == p.(cached := p.cached[1..], held := p.held + {p.cached[0]})
    ensures Accounted(q, initial) && p.cached[0] !in p.held
  {
    assert p.cached == [p.cached[0]] + p.cached[1..];
    assert Elems(p.cached) == {p.cached[0]} + Elems(p.cached[1..]);
    assert p.cached[0] !in Elems(p.cached[1..]) by {
      forall k | 1 <= k < |p.cached| ensures p.cached[k] != p.cached[0] {}
    }
  }

  lemma RefillAccounted(p: Pool, initial: set<nat>, q: Pool, address: nat, batch: seq<nat>)
    requires Accounted(p, initial) && p.cached == [] && RefillStep(p, q, address, batch)
    ensures Accounted(q, initial) && batch[0] !in p.held
  {
    var m := Pool(p.free - Elems(batch), batch, p.held, p.stranded);
    assert Accounted(m, initial);
    ServeAccounted(m, initial, q);
  }

  lemma ServeSound(p: Pool, initial: set<nat>, f: nat, address: nat, q: Pool)
    requires f in initial && f !in p.held && address == 4096 * f && q.held == p.held + {f}
    requires forall g :: g in initial ==> 256 <= g < FRAMES
    ensures address != 0 && address / 4096 == f
  {
  }

  lemma ExhaustAccounted(p: Pool, initial: set<nat>, q: Pool)
    requires Accounted(p, initial) && p.cached == [] && q == p.(free := {}, stranded := p.stranded + p.free)
    ensures Accounted(q, initial)
  {
  }

  /** A page handed out was not in anyone's hands; it is below 4 GB and not in the first megabyte. NULL means that
      fewer than 20 frames were left and none was cached; those are then lost: at most 19 each time. */
  lemma AllocSound(p: Pool, initial: set<nat>, address: nat, q: Pool)
    requires Accounted(p, initial) && AllocStep(p, q, address)
    requires forall f :: f in initial ==> 256 <= f < FRAMES
    ensures Accounted(q, initial)
    ensures address == 0 <==> p.cached == [] && |p.free| < BATCH
    ensures address == 0 ==> q.free == {} && q.held == p.held && q.stranded == p.stranded + p.free && |p.free| <= 19
    ensures address != 0 ==> address / 4096 !in p.held && address / 4096 in initial && q.held == p.held + {address / 4096}
  {
    if p.cached != [] {
      ServeAccounted(p, initial, q);
      assert p.cached[0] in Elems(p.cached);
      ServeSound(p, initial, p.cached[0], address, q);
    } else if |p.free| >= BATCH {
      var batch :| RefillStep(p, q, address, batch);
      RefillAccounted(p, initial, q, address, batch);
      assert batch[0] in Elems(batch);
      ServeSound(p, initial, batch[0], address, q);
    } else {
      ExhaustAccounted(p, initial, q);
    }
  }

  /** How many of `n` free frames can be had: those in whole batches. */
  function Batches(n: nat): nat {
    if n < BATCH then 0 else BATCH + Batches(n - BATCH)
  }

  lemma {:induction false} BatchesIs(n: nat)
    ensures Batches(n) == n / BATCH * BATCH
  {
    if n >= BATCH { BatchesIs(n - BATCH); }
  }

  /** The number of elements, counted one by one. */
  ghost function Size(s: set<nat>): nat {
    if s == {} then 0 else
      var x :| x in s;
      1 + Size(s - {x})
  }

  lemma {:induction false} SizeIs(s: set<nat>)
    ensures Size(s) == |s|
  {
    if s != {} {
      var x :| x in s && Size(s) == 1 + Size(s - {x});
      SizeIs(s - {x});
    }
  }

  /** How many allocations in a row will succeed: the frames in the cache, and whole batches of free ones. */
  ghost function Available(p: Pool): nat {
    |p.cached| + Batches(Size(p.free))
  }

  lemma RefillAvailable(p: Pool, q: Pool, address: nat, batch: seq<nat>)
    requires p.cached == [] && |p.free| >= BATCH && RefillStep(p, q, address, batch)
    ensures Available(p) > 0 && Available(q) == Available(p) - 1
  {
    AscendingCard(batch);
    LessBatch(p.free, Elems(batch));
    SizeIs(p.free);
    SizeIs(q.free);
  }

  lemma LessBatch(s: set<nat>, b: set<nat>)
    requires b <= s
    ensures |s - b| == |s| - |b|
  {
    assert s == (s - b) + b;
  }

  lemma StepAvailable(p: Pool, address: nat, q: Pool)
    requires AllocStep(p, q, address)
    ensures Available(p) == 0 <==> p.cached == [] && |p.free| < BATCH
    ensures Available(q) == if Available(p) == 0 then 0 else Available(p) - 1
  {
    SizeIs(p.free);
    if p.cached == [] && |p.free| >= BATCH {
      var batch :| RefillStep(p, q, address, batch);
      RefillAvailable(p, q, address, batch);
    }
  }

  /** A page can be had exactly if one is available, and then there is one less. */
  lemma AllocAvailable(p: Pool, initial: set<nat>, address: nat, q: Pool)
    requires Accounted(p, initial) && AllocStep(p, q, address)
    requires forall f :: f in initial ==> 256 <= f < FRAMES
    ensures address == 0 <==> Available(p) == 0
    ensures Available(q) == if address == 0 then 0 else Available(p) - 1
  {
    AllocSound(p, initial, address, q);
    StepAvailable(p, address, q);
  }

  /** What is handed out is the address of a whole frame. */
  lemma WholeFrames(p: Pool, q: Pool, address: nat)
    requires AllocStep(p, q, address)
    ensures address % 4096 == 0
  {
    if p.cached == [] && |p.free| >= BATCH {
      var batch :| RefillStep(p, q, address, batch);
    }
  }

  lemma FreeSound(p: Pool, initial: set<nat>, address: nat, q: Pool)
    requires Accounted(p, initial) && address / 4096 in p.held && FreeStep(p, q, address)
    ensures Accounted(q, initial)
  {
  }

  lemma LaterHigher(q: seq<nat>, f: nat)
    requires Ascending(q) && q != [] && f in q[1..]
    ensures q[0] < f
  {
    var k :| 0 <= k < |q| - 1 && q[1..][k] == f;
    assert q[k + 1] == f;
  }

  lemma RefillLowest(p: Pool, q: Pool, address: nat, batch: seq<nat>, f: nat)
    requires RefillStep(p, q, address, batch) && (f in q.cached || f in q.free)
    ensures address / 4096 < f
  {
    assert address / 4096 == batch[0] && batch[0] in batch;
    if f in q.cached { LaterHigher(batch, f); }
  }

  /** What is handed out is the lowest frame of the cache, and after a refill the lowest of all. */
  lemma AllocLowest(p: Pool, initial: set<nat>, address: nat, q: Pool, f: nat)
    requires Accounted(p, initial) && AllocStep(p, q, address) && address != 0
    requires f in q.cached || (p.cached == [] && f in q.free)
    ensures address / 4096 < f
  {
    if p.cached != [] {
      LaterHigher(p.cached, f);
    } else {
      var batch :| RefillStep(p, q, address, batch);
      RefillLowest(p, q, address, batch, f);
    }
  }

  /** A page given back can be had again: it is free, and nothing else has changed hands. */
  lemma FreeGives(p: Pool, initial: set<nat>, address: nat, q: Pool)
    requires Accounted(p, initial) && Step(p, Free(address), q)
    ensures address / 4096 in q.free && address / 4096 !in q.held
    ensures |q.free| == |p.free| + 1 && |q.held| == |p.held| - 1 && q.cached == p.cached && q.stranded == p.stranded
  {
    assert q.held + {address / 4096} == p.held;
  }

  /** In every run the four places partition the frames that were free at first. */
  lemma {:induction false} RunAccounted(ps: seq<Pool>, calls: seq<Call>, initial: set<nat>, i: nat)
    requires Run(ps, calls) && ps[0] == Pool(initial, [], {}, {}) && i < |ps| && forall f :: f in initial ==> 256 <= f < FRAMES
    ensures Accounted(ps[i], initial)
  {
    if i > 0 {
      RunAccounted(ps, calls, initial, i - 1);
      assert StepAt(ps, calls, i - 1);
      StepAccounted(ps[i - 1], calls[i - 1], ps[i], initial);
    }
  }

  lemma StepAccounted(p: Pool, call: Call, q: Pool, initial: set<nat>)
    requires Accounted(p, initial) && Step(p, call, q) && forall f :: f in initial ==> 256 <= f < FRAMES
    ensures Accounted(q, initial)
  {
    match call
    case Alloc(a) => AllocSound(p, initial, a, q);
    case Free(a) => FreeSound(p, initial, a, q);
  }

  lemma HandOut(ps: seq<Pool>, calls: seq<Call>, initial: set<nat>, i: nat, address: nat)
    requires Run(ps, calls) && ps[0] == Pool(initial, [], {}, {}) && forall f :: f in initial ==> 256 <= f < FRAMES
    requires i < |calls| && address != 0 && calls[i] == Alloc(address)
    ensures address / 4096 !in ps[i].held && address / 4096 in ps[i + 1].held
  {
    RunAccounted(ps, calls, initial, i);
    assert StepAt(ps, calls, i);
    AllocSound(ps[i], initial, address, ps[i + 1]);
  }

  /** No live frame is handed out again: between an allocation and a later one that returns the same page,
      that page was freed. */
  lemma NoDoubleHandOut(ps: seq<Pool>, calls: seq<Call>, initial: set<nat>, i: nat, j: nat, address: nat)
    requires Run(ps, calls) && ps[0] == Pool(initial, [], {}, {}) && forall f :: f in initial ==> 256 <= f < FRAMES
    requires i < j < |calls| && address != 0 && calls[i] == Alloc(address) && calls[j] == Alloc(address)
    ensures exists k :: i < k < j && calls[k].Free? && calls[k].address / 4096 == address / 4096
  {
    HandOut(ps, calls, initial, i, address);
    HandOut(ps, calls, initial, j, address);
    if forall k :: i < k < j ==> !(calls[k].Free? && calls[k].address / 4096 == address / 4096) {
      StaysHeld(ps, calls, initial, i + 1, j, address / 4096);
    }
  }

  lemma {:induction false} StaysHeld(ps: seq<Pool>, calls: seq<Call>, initial: set<nat>, i: nat, j: nat, f: nat)
    requires Run(ps, calls) && ps[0] == Pool(initial, [], {}, {}) && forall g :: g in initial ==> 256 <= g < FRAMES
    requires i <= j < |ps| && f in ps[i].held
    requires forall k :: i <= k < j ==> !(calls[k].Free? && calls[k].address / 4096 == f)
    ensures f in ps[j].held
  {
    if i < j {
      StaysHeld(ps, calls, initial, i, j - 1, f);
      RunAccounted(ps, calls, initial, j - 1);
      assert StepAt(ps, calls, j - 1);
      match calls[j - 1]
      case Alloc(a) => AllocSound(ps[j - 1], initial, a, ps[j]);
      case Free(a) =>
    }
  }
}
