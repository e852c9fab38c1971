/** The heap as a list of blocks: what the chain of headers in memory means, and what
    splitting, reserving and releasing do to that list. */
module HeapBlocks {
  import opened ByteStore

  datatype Block = Block(addr: nat, next: nat, free: bool)

  /** Payload bytes of a block: everything between its header and the next header. */
  function Space(b: Block): int {
    b.next - b.addr - 8
  }

  /** ALIGN in 32-bit arithmetic: rounds up to a multiple of 8, and wraps. */
  function Align(size: nat): nat {
    Wrap(size + 7) / 8 * 8
  }

  /** ALIGN rounds up exactly when the addition does not wrap; above that it rounds to 0. */
  lemma AlignExact(size: nat)
    requires size < WORD
    ensures Align(size) % 8 == 0
    ensures Align(size) >= size <==> size <= WORD - 8
    ensures size <= WORD - 8 ==> Align(size) < size + 8
    ensures size > WORD - 8 ==> Align(size) == 0
  {
  }

  /** The blocks follow one another without gap or overlap from `s` up to `e`. */
  ghost predicate Tiled(bs: seq<Block>, s: nat, e: nat) {
    if bs == [] then s == e
    else bs[0].addr == s && s + 8 <= bs[0].next && Tiled(bs[1..], bs[0].next, e)
  }

  ghost predicate Fits(b: Block, want: nat) {
    b.free && Space(b) >= want
  }

  /** First fit: `k` is the first block that is free and large enough, or |bs| if there is none. */
  ghost predicate IsFirstFit(bs: seq<Block>, want: nat, k: nat) {
    k <= |bs| && (k < |bs| ==> Fits(bs[k], want)) && forall b :: b in bs[..k] ==> !Fits(b, want)
  }

  /** heap_block_split: the tail becomes a free block of its own if it can hold 16 bytes.
      The test is on the aligned size, the cut is at the raw size. */
  function Pieces(b: Block, size: nat, aligned: nat): seq<Block> {
    if Space(b) < aligned + 8 + 16 then [b]
    else [b.(next := b.addr + 8 + size), Block(b.addr + 8 + size, b.next, true)]
  }

  /** The list with blocks [i, j) replaced by `mid`. */
  function Replace(bs: seq<Block>, i: nat, j: nat, mid: seq<Block>): seq<Block>
    requires i <= j <= |bs|
  {
    bs[..i] + mid + bs[j..]
  }

  function Split(bs: seq<Block>, i: nat, size: nat): seq<Block>
    requires i < |bs|
  {
    Replace(bs, i, i + 1, Pieces(bs[i], size, Align(size)))
  }

  /** What kmalloc makes of the block it found: a used block of `want` bytes (a multiple of 8, so the cut
      is where the test looks), and a free rest if that is large enough. */
  function ReservedPieces(b: Block, want: nat): seq<Block> {
    var p := Pieces(b, want, want);
    [p[0].(free := false)] + p[1..]
  }

  function Reserve(bs: seq<Block>, i: nat, want: nat): seq<Block>
    requires i < |bs|
  {
    Replace(bs, i, i + 1, ReservedPieces(bs[i], want))
  }

  /** kfree: the block and the free neighbours on either side of it become one free block. */
  function ReleaseFrom(bs: seq<Block>, i: nat): nat
    requires i < |bs|
  {
    if i > 0 && bs[i - 1].free then i - 1 else i
  }

  function ReleaseTo(bs: seq<Block>, i: nat): nat
    requires i < |bs|
  {
    if i + 1 < |bs| && bs[i + 1].free then i + 2 else i + 1
  }

  function Release(bs: seq<Block>, i: nat): seq<Block>
    requires i < |bs|
  {
    var lo, hi := ReleaseFrom(bs, i), ReleaseTo(bs, i);
    Replace(bs, lo, hi, [Block(bs[lo].addr, bs[hi - 1].next, true)])
  }

  ghost function Used(bs: seq<Block>): set<Block> {
    set b | b in bs && !b.free
  }

  // ---------------------------------------------------------------- tiling

  /** Address of block `i`, or the end of the list. */
  function Cut(bs: seq<Block>, i: nat, e: nat): nat {
    if i < |bs| then bs[i].addr else e
  }

  lemma {:induction false} TiledAppend(p: seq<Block>, q: seq<Block>, s: nat, m: nat, e: nat)
    requires Tiled(p, s, m) && Tiled(q, m, e)
    ensures Tiled(p + q, s, e)
  {
    if p == [] {
      assert p + q == q;
    } else {
      TiledAppend(p[1..], q, p[0].next, m, e);
      assert (p + q)[1..] == p[1..] + q;
    }
  }

  lemma {:induction false} TiledAt(bs: seq<Block>, s: nat, e: nat, i: nat)
    requires Tiled(bs, s, e) && i <= |bs|
    ensures Tiled(bs[..i], s, Cut(bs, i, e)) && Tiled(bs[i..], Cut(bs, i, e), e)
  {
    if i > 0 {
      TiledAt(bs[1..], bs[0].next, e, i - 1);
      assert bs[..i][1..] == bs[1..][..i - 1] && bs[1..][i - 1..] == bs[i..];
    }
  }

  lemma {:induction false} TiledRange(bs: seq<Block>, s: nat, e: nat)
    requires Tiled(bs, s, e)
    ensures s <= e
    ensures forall b :: b in bs ==> s <= b.addr && b.addr + 8 <= b.next <= e
  {
    if bs != [] {
      TiledRange(bs[1..], bs[0].next, e);
      assert bs == [bs[0]] + bs[1..];
    }
  }

  /** Block `i` is where its predecessor ends, and lies apart from every other block. */
  lemma TiledApart(bs: seq<Block>, s: nat, e: nat, i: nat)
    requires Tiled(bs, s, e) && i < |bs|
    ensures s <= bs[i].addr && bs[i].addr + 8 <= bs[i].next == Cut(bs, i + 1, e) <= e
    ensures forall b :: b in bs[..i] ==> b.next <= bs[i].addr
    ensures forall b :: b in bs[i + 1..] ==> bs[i].next <= b.addr
    ensures bs == bs[..i] + [bs[i]] + bs[i + 1..]
  {
    TiledAt(bs, s, e, i);
    TiledAt(bs, s, e, i + 1);
    TiledRange(bs, s, e);
    TiledRange(bs[..i], s, bs[i].addr);
    assert bs[i..][1..] == bs[i + 1..];
    TiledRange(bs[i + 1..], Cut(bs, i + 1, e), e);
    if i + 1 < |bs| { assert bs[i + 1..][0] == bs[i + 1]; }
  }

  /** Replacing a stretch of blocks by anything that tiles the same addresses keeps the tiling. */
  lemma ReplaceTiled(bs: seq<Block>, s: nat, e: nat, i: nat, j: nat, mid: seq<Block>)
    requires Tiled(bs, s, e) && i <= j <= |bs| && Tiled(mid, Cut(bs, i, e), Cut(bs, j, e))
    ensures Tiled(Replace(bs, i, j, mid), s, e)
  {
    TiledAt(bs, s, e, i);
    TiledAt(bs, s, e, j);
    TiledAppend(bs[..i], mid, s, Cut(bs, i, e), Cut(bs, j, e));
    TiledAppend(bs[..i] + mid, bs[j..], s, Cut(bs, j, e), e);
  }

  lemma PiecesTiled(b: Block, size: nat, aligned: nat)
    requires b.addr + 8 <= b.next && size <= Space(b) && size <= aligned
    ensures var p := Pieces(b, size, aligned);
            Tiled(p, b.addr, b.next) && Tiled([p[0].(free := false)] + p[1..], b.addr, b.next)
            && size <= Space(p[0]) <= Space(b)
  {
    var p := Pieces(b, size, aligned);
    var r := [p[0].(free := false)] + p[1..];
    assert r[1..] == p[1..];
    if p != [b] {
      assert Tiled(p[1..], p[1].addr, b.next);
    }
  }

  lemma SplitTiled(bs: seq<Block>, s: nat, e: nat, i: nat, size: nat)
    requires Tiled(bs, s, e) && i < |bs| && size <= Space(bs[i]) && size <= Align(size)
    ensures Tiled(Split(bs, i, size), s, e)
    ensures Used(Split(bs, i, size)) ==
            if bs[i].free then Used(bs) else Used(bs) - {bs[i]} + {Pieces(bs[i], size, Align(size))[0]}
  {
    TiledApart(bs, s, e, i);
    PiecesTiled(bs[i], size, Align(size));
    ReplaceTiled(bs, s, e, i, i + 1, Pieces(bs[i], size, Align(size)));
  }

  /** Reserving a fitting block keeps the tiling and adds exactly one used block, at least as large as wanted. */
  lemma ReserveTiled(bs: seq<Block>, s: nat, e: nat, i: nat, want: nat)
    requires Tiled(bs, s, e) && i < |bs| && Fits(bs[i], want)
    ensures Tiled(Reserve(bs, i, want), s, e)
    ensures Used(Reserve(bs, i, want)) == Used(bs) + {ReservedPieces(bs[i], want)[0]}
    ensures Space(ReservedPieces(bs[i], want)[0]) >= want
  {
    TiledApart(bs, s, e, i);
    PiecesTiled(bs[i], want, want);
    ReplaceTiled(bs, s, e, i, i + 1, ReservedPieces(bs[i], want));
  }

  lemma UsedReplace(bs: seq<Block>, i: nat, j: nat, mid: seq<Block>)
    requires i <= j <= |bs|
    ensures Used(Replace(bs, i, j, mid)) == Used(bs[..i]) + Used(mid) + Used(bs[j..])
    ensures Used(bs) == Used(bs[..i]) + Used(bs[i..j]) + Used(bs[j..])
  {
    assert bs == bs[..i] + bs[i..j] + bs[j..];
  }

  lemma ReleaseRange(bs: seq<Block>, s: nat, e: nat, i: nat)
    requires Tiled(bs, s, e) && i < |bs|
    ensures var lo, hi := ReleaseFrom(bs, i), ReleaseTo(bs, i);
            Tiled([Block(bs[lo].addr, bs[hi - 1].next, true)], Cut(bs, lo, e), Cut(bs, hi, e))
  {
    var lo, hi := ReleaseFrom(bs, i), ReleaseTo(bs, i);
    TiledApart(bs, s, e, i);
    if lo < i { TiledApart(bs, s, e, lo); }
    if hi > i + 1 { TiledApart(bs, s, e, i + 1); }
    var b := Block(bs[lo].addr, bs[hi - 1].next, true);
    assert [b][1..] == [];
  }

  lemma UsedNear(bs: seq<Block>, i: nat)
    requires i < |bs|
    ensures Used(bs[ReleaseFrom(bs, i)..ReleaseTo(bs, i)]) == if bs[i].free then {} else {bs[i]}
  {
    var lo, hi := ReleaseFrom(bs, i), ReleaseTo(bs, i);
    var near := bs[lo..hi];
    assert forall k :: 0 <= k < |near| ==> near[k] == bs[lo + k];
    assert bs[i] == near[i - lo];
  }

  lemma ReleaseUsed(bs: seq<Block>, s: nat, e: nat, i: nat)
    requires Tiled(bs, s, e) && i < |bs|
    ensures Used(Release(bs, i)) == Used(bs) - {bs[i]}
  {
    var lo, hi := ReleaseFrom(bs, i), ReleaseTo(bs, i);
    var mid := [Block(bs[lo].addr, bs[hi - 1].next, true)];
    UsedReplace(bs, lo, hi, mid);
    assert Used(mid) == {};
    UsedNear(bs, i);
    assert bs[i] !in bs[..lo] && bs[i] !in bs[hi..] by {
      TiledApart(bs, s, e, i);
      assert bs[..lo] <= bs[..i] && forall b :: b in bs[hi..] ==> b in bs[i + 1..];
    }
  }

  /** Releasing keeps the tiling and removes exactly the released block from the used ones. */
  lemma ReleaseTiled(bs: seq<Block>, s: nat, e: nat, i: nat)
    requires Tiled(bs, s, e) && i < |bs|
    ensures Tiled(Release(bs, i), s, e)
    ensures Used(Release(bs, i)) == Used(bs) - {bs[i]}
  {
    ReleaseRange(bs, s, e, i);
    ReleaseUsed(bs, s, e, i);
    var lo, hi := ReleaseFrom(bs, i), ReleaseTo(bs, i);
    ReplaceTiled(bs, s, e, lo, hi, [Block(bs[lo].addr, bs[hi - 1].next, true)]);
  }

  // ---------------------------------------------------------------- coalescing is canonical

  /** No two neighbouring free blocks. */
  ghost predicate Separated(bs: seq<Block>) {
    |bs| < 2 || (!(bs[0].free && bs[1].free) && Separated(bs[1..]))
  }

  ghost predicate Aligned(bs: seq<Block>) {
    forall b :: b in bs ==> b.addr % 8 == 0 && b.next % 8 == 0
  }

  ghost predicate Canonical(bs: seq<Block>) {
    Separated(bs) && Aligned(bs)
  }

  ghost predicate Meet(p: seq<Block>, q: seq<Block>) {
    p == [] || q == [] || !(p[|p| - 1].free && q[0].free)
  }

  lemma {:induction false} SeparatedAppend(p: seq<Block>, q: seq<Block>)
    ensures Separated(p + q) <==> Separated(p) && Separated(q) && Meet(p, q)
  {
    if p == [] {
      assert p + q == q;
    } else if |p| == 1 {
      assert (p + q)[1..] == q;
    } else {
      SeparatedAppend(p[1..], q);
      assert (p + q)[1..] == p[1..] + q;
    }
  }

  lemma SeparatedReplace(bs: seq<Block>, i: nat, j: nat, mid: seq<Block>)
    requires i <= j <= |bs| && mid != []
    ensures Separated(Replace(bs, i, j, mid)) <==>
            Separated(bs[..i]) && Separated(mid) && Separated(bs[j..]) && Meet(bs[..i], mid) && Meet(mid, bs[j..])
  {
    SeparatedAppend(bs[..i], mid);
    SeparatedAppend(bs[..i] + mid, bs[j..]);
  }

  lemma SeparatedParts(bs: seq<Block>, i: nat)
    requires Separated(bs) && i <= |bs|
    ensures Separated(bs[..i]) && Separated(bs[i..]) && Meet(bs[..i], bs[i..])
  {
    SeparatedAppend(bs[..i], bs[i..]);
    assert bs == bs[..i] + bs[i..];
  }

  /** What surrounds block `i` in a separated list. */
  lemma Neighbours(bs: seq<Block>, i: nat)
    requires Separated(bs) && i < |bs|
    ensures Separated(bs[..i]) && Separated(bs[i + 1..])
    ensures Meet(bs[..i], [bs[i]]) && Meet([bs[i]], bs[i + 1..])
  {
    SeparatedParts(bs, i);
    SeparatedParts(bs, i + 1);
  }

  lemma PiecesSeparated(b: Block, size: nat, aligned: nat)
    requires !b.free || size == aligned
    ensures var p := Pieces(b, size, aligned); Separated([p[0].(free := false)] + p[1..])
  {
    var p := Pieces(b, size, aligned);
    var r := [p[0].(free := false)] + p[1..];
    assert r[1..] == p[1..] && |p[1..]| <= 1;
  }

  lemma AlignedReplace(bs: seq<Block>, i: nat, j: nat, mid: seq<Block>)
    requires i <= j <= |bs| && Aligned(bs)
    ensures Aligned(Replace(bs, i, j, mid)) <==> Aligned(mid)
  {
    assert forall b :: b in mid ==> b in Replace(bs, i, j, mid);
  }

  lemma PiecesAligned(b: Block, size: nat, aligned: nat)
    requires b.addr % 8 == 0 && b.next % 8 == 0
    ensures var p := Pieces(b, size, aligned); Aligned(p) <==> |p| == 1 || size % 8 == 0
  {
    var p := Pieces(b, size, aligned);
    if |p| == 2 { assert p[0] in p && p[1] in p; }
  }

  lemma ReserveCanonical(bs: seq<Block>, s: nat, e: nat, i: nat, want: nat)
    requires Tiled(bs, s, e) && Canonical(bs) && i < |bs| && Fits(bs[i], want) && want % 8 == 0
    ensures Canonical(Reserve(bs, i, want))
  {
    Neighbours(bs, i);
    PiecesSeparated(bs[i], want, want);
    var mid := ReservedPieces(bs[i], want);
    SeparatedReplace(bs, i, i + 1, mid);
    assert bs[i] in bs;
    PiecesAligned(bs[i], want, want);
    assert forall b :: b in mid ==> b.(free := true) in Pieces(bs[i], want, want);
  }

  lemma ReleaseSeparated(bs: seq<Block>, i: nat)
    requires Separated(bs) && i < |bs|
    ensures Separated(Release(bs, i))
  {
    var lo, hi := ReleaseFrom(bs, i), ReleaseTo(bs, i);
    SeparatedParts(bs, lo);
    SeparatedParts(bs, hi);
    SeparatedReplace(bs, lo, hi, [Block(bs[lo].addr, bs[hi - 1].next, true)]);
    NoFreeBefore(bs, i);
    if hi < |bs| { assert !bs[hi].free; }
  }

  /** In front of what a release merges there is no free block. */
  lemma NoFreeBefore(bs: seq<Block>, i: nat)
    requires Separated(bs) && i < |bs|
    ensures ReleaseFrom(bs, i) > 0 ==> !bs[ReleaseFrom(bs, i) - 1].free
  {
    SeparatedParts(bs, ReleaseFrom(bs, i));
  }

  lemma ReleaseCanonical(bs: seq<Block>, i: nat)
    requires Canonical(bs) && i < |bs|
    ensures Canonical(Release(bs, i))
  {
    var lo, hi := ReleaseFrom(bs, i), ReleaseTo(bs, i);
    ReleaseSeparated(bs, i);
    assert bs[lo] in bs && bs[hi - 1] in bs;
    AlignedReplace(bs, lo, hi, [Block(bs[lo].addr, bs[hi - 1].next, true)]);
  }

  lemma GrowCanonical(bs: seq<Block>, b: Block)
    requires Canonical(bs) && !b.free && b.addr % 8 == 0 && b.next % 8 == 0
    ensures Canonical(bs + [b])
  {
    SeparatedAppend(bs, [b]);
  }

  /** Once everything is free, a canonical heap is one single block, whatever order it was freed in. */
  lemma AllFreeIsOneBlock(bs: seq<Block>, s: nat, e: nat)
    requires Tiled(bs, s, e) && s < e && Canonical(bs) && Used(bs) == {}
    ensures bs == [Block(s, e, true)]
  {
    forall b | b in bs ensures b.free { assert b !in Used(bs); }
    assert |bs| == 1;
    assert bs[1..] == [];
  }

  /** kfree undoes a kmalloc that was served from a free block, header for header. */
  lemma ReleaseUndoesReserve(bs: seq<Block>, s: nat, e: nat, i: nat, want: nat)
    requires Tiled(bs, s, e) && Canonical(bs) && i < |bs| && Fits(bs[i], want)
    ensures Release(Reserve(bs, i, want), i) == bs
  {
    var mid := ReservedPieces(bs[i], want);
    var cs := Reserve(bs, i, want);
    Neighbours(bs, i);
    TiledApart(bs, s, e, i);
    assert cs[..i] == bs[..i] && cs[i] == mid[0] && cs[i + |mid|..] == bs[i + 1..];
    if |mid| == 2 {
      assert cs[i + 1] == mid[1];
    } else if i + 1 < |bs| {
      assert cs[i + 1] == bs[i + 1];
    }
    if i > 0 { assert cs[i - 1] == bs[i - 1]; }
    assert ReleaseFrom(cs, i) == i && ReleaseTo(cs, i) == i + |mid|;
  }

  lemma InOrder(bs: seq<Block>, s: nat, e: nat, i: nat, j: nat)
    requires Tiled(bs, s, e) && i < j < |bs|
    ensures bs[i].addr < bs[j].addr
  {
    TiledApart(bs, s, e, i);
    TiledAt(bs, s, e, j);
    TiledRange(bs[..j], s, Cut(bs, j, e));
    assert bs[i] in bs[..j];
  }

  /** A free block covers `b`. */
  ghost predicate Reusable(bs: seq<Block>, b: Block) {
    exists f :: f in bs && f.free && f.addr <= b.addr && b.next <= f.next
  }

  /** The block that releasing leaves behind covers the one released. */
  lemma ReleaseCovers(bs: seq<Block>, s: nat, e: nat, i: nat)
    requires Tiled(bs, s, e) && i < |bs|
    ensures Reusable(Release(bs, i), bs[i])
  {
    var lo, hi := ReleaseFrom(bs, i), ReleaseTo(bs, i);
    var f := Block(bs[lo].addr, bs[hi - 1].next, true);
    assert Release(bs, i)[lo] == f;
    if lo < i { InOrder(bs, s, e, lo, i); }
    NextInOrder(bs, s, e, i, hi - 1);
  }

  lemma NextInOrder(bs: seq<Block>, s: nat, e: nat, i: nat, j: nat)
    requires Tiled(bs, s, e) && i <= j < |bs| && j <= i + 1
    ensures bs[i].next <= bs[j].next
  {
    TiledApart(bs, s, e, i);
    TiledApart(bs, s, e, j);
  }

  /** Reserving takes no more than it must: less than 24 bytes beyond what was wanted, and what is cut off stays free. */
  lemma ReserveThrifty(bs: seq<Block>, i: nat, want: nat)
    requires i < |bs| && Fits(bs[i], want)
    ensures var n := ReservedPieces(bs[i], want)[0];
            want <= Space(n) < want + 24 && (n.next == bs[i].next || Block(n.next, bs[i].next, true) in Reserve(bs, i, want))
  {
    var mid, cs := ReservedPieces(bs[i], want), Reserve(bs, i, want);
    if |mid| > 1 { assert cs[i + 1] == mid[1]; }
  }

  /** So does shrinking in place. */
  lemma SplitThrifty(bs: seq<Block>, i: nat, size: nat)
    requires i < |bs| && size <= Space(bs[i]) && size <= Align(size)
    ensures var n := Pieces(bs[i], size, Align(size))[0];
            n in Split(bs, i, size) && size <= Space(n) < Align(size) + 24
            && (n.next == bs[i].next || Block(n.next, bs[i].next, true) in Split(bs, i, size))
  {
    var mid, cs := Pieces(bs[i], size, Align(size)), Split(bs, i, size);
    assert cs[i] == mid[0];
    if |mid| > 1 { assert cs[i + 1] == mid[1]; }
  }

  /** krealloc's in-place shrink is the one operation that can break the canonical form. It keeps it
      exactly when it does not cut at all, or cuts at an aligned size in front of a used block. */
  lemma ShrinkCanonicalIff(bs: seq<Block>, s: nat, e: nat, i: nat, size: nat)
    requires Tiled(bs, s, e) && Canonical(bs) && i < |bs| && !bs[i].free && size <= Space(bs[i])
    ensures Canonical(Split(bs, i, size)) <==>
            Space(bs[i]) < Align(size) + 24 || (size % 8 == 0 && (i + 1 < |bs| ==> !bs[i + 1].free))
  {
    var mid := Pieces(bs[i], size, Align(size));
    Neighbours(bs, i);
    PiecesSeparated(bs[i], size, Align(size));
    assert mid == [mid[0].(free := false)] + mid[1..];
    SeparatedReplace(bs, i, i + 1, mid);
    assert bs[i] in bs;
    PiecesAligned(bs[i], size, Align(size));
    AlignedReplace(bs, i, i + 1, mid);
  }

  /** The canonical form really is lost by a shrink, in any heap that starts with a used block of 64 bytes before a
      free one: cut at 20 bytes it leaves an unaligned header, cut at 16 two free neighbours. */
  lemma ShrinkBreaksForm(s: nat, e: nat)
    requires s % 8 == 0 && e % 8 == 0 && s + 72 + 8 <= e
    ensures var bs := [Block(s, s + 72, false), Block(s + 72, e, true)];
            Tiled(bs, s, e) && Canonical(bs)
            && Tiled(Split(bs, 0, 20), s, e) && !Aligned(Split(bs, 0, 20))
            && Tiled(Split(bs, 0, 16), s, e) && !Separated(Split(bs, 0, 16))
  {
    var bs := [Block(s, s + 72, false), Block(s + 72, e, true)];
    assert Tiled(bs, s, e) by { assert bs[1..][1..] == [] && Tiled(bs[1..], s + 72, e); }
    AlignExact(20);
    AlignExact(16);
    SplitTiled(bs, s, e, 0, 20);
    SplitTiled(bs, s, e, 0, 16);
    CutAt(s, e, 20);
    CutAt(s, e, 16);
    ShrinkCanonicalIff(bs, s, e, 0, 20);
    ShrinkCanonicalIff(bs, s, e, 0, 16);
  }

  lemma CutAt(s: nat, e: nat, size: nat)
    requires s + 72 + 8 <= e && (size == 20 || size == 16)
    ensures var cut := Split([Block(s, s + 72, false), Block(s + 72, e, true)], 0, size);
            (size == 20 && s % 8 == 0 ==> !Aligned(cut)) && (size == 16 ==> !Separated(cut))
  {
    AlignExact(size);
    var cut := Split([Block(s, s + 72, false), Block(s + 72, e, true)], 0, size);
    assert cut == [Block(s, s + 8 + size, false), Block(s + 8 + size, s + 72, true), Block(s + 72, e, true)];
    assert cut[1] in cut && !Separated(cut[1..]);
  }
}
