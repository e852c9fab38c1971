/** Building the frame bitmap from the boot loader's memory map (pmm_frames_init in paging.c). */
module BootMap {
  import opened ByteStore
  import opened FrameBitmap
  import opened WordBits

  const PAGE := 4096
  const AVAILABLE := 1

  type U32 = x: int | 0 <= x < WORD

  /** One entry of the Multiboot memory map (section 3.3 of the Multiboot Specification 0.6.96). */
  datatype Entry = Entry(size: U32, addrLow: U32, addrHigh: U32, lenLow: U32, lenHigh: U32, kind: U32)

  // ---------------------------------------------------------------- what an entry offers

  ghost function Length(e: Entry): nat {
    e.lenLow + WORD * e.lenHigh
  }

  /** Frame `f` lies wholly inside an available entry that starts below 4 GB. */
  ghost predicate Offers(e: Entry, f: nat) {
    e.kind == AVAILABLE && e.addrHigh == 0 && e.addrLow <= PAGE * f && PAGE * f + PAGE <= e.addrLow + Length(e)
  }

  function RoundDown(a: nat): nat {
    a / PAGE * PAGE
  }

  function RoundUp(a: nat): nat {
    RoundDown(Wrap(a + PAGE - 1))
  }

  /** Frame `f` is cleared on account of `e`, all sums taken in 32 bits and the length cut to its low word. */
  ghost predicate Clears(e: Entry, f: nat) {
    e.kind == AVAILABLE && e.addrHigh == 0
    && RoundUp(e.addrLow) <= PAGE * f < RoundDown(Wrap(e.addrLow + e.lenLow))
  }

  /** The entry ends below 4 GB, or it starts in the last page and its truncated end stays in the first. */
  predicate Tame(e: Entry) {
    if e.addrLow <= WORD - PAGE then e.addrLow + e.lenLow < WORD && e.lenHigh == 0
    else Wrap(e.addrLow + e.lenLow) < PAGE
  }

  lemma RoundUpExact(a: nat, f: nat)
    requires a <= WORD - PAGE
    ensures RoundUp(a) <= PAGE * f <==> a <= PAGE * f
  {
  }

  lemma RoundDownExact(a: nat, f: nat)
    ensures PAGE * f < RoundDown(a) <==> PAGE * f + PAGE <= a
  {
  }

  lemma RoundUpWraps(a: nat)
    requires WORD - PAGE < a < WORD
    ensures RoundUp(a) == 0
  {
  }

  lemma TameExact(e: Entry, f: nat)
    requires Tame(e) && f < FRAMES
    ensures Clears(e, f) <==> Offers(e, f)
  {
    RoundDownExact(Wrap(e.addrLow + e.lenLow), f);
    if e.addrLow <= WORD - PAGE { RoundUpExact(e.addrLow, f); } else { RoundUpWraps(e.addrLow); }
  }

  /** An available entry below 4 GB clears exactly the frames it offers iff it is tame. One that reaches 4 GB
      (its last page ends at 2^32 or beyond) never clears the last frame. */
  lemma ExactIff(e: Entry)
    requires e.kind == AVAILABLE && e.addrHigh == 0
    ensures Tame(e) <==> forall f :: 0 <= f < FRAMES ==> (Clears(e, f) <==> Offers(e, f))
  {
    if Tame(e) {
      forall f: nat | f < FRAMES ensures Clears(e, f) <==> Offers(e, f) { TameExact(e, f); }
    } else if e.addrLow <= WORD - PAGE {
      var last := FRAMES - 1;
      assert Offers(e, last) && !Clears(e, last);
    } else {
      RoundUpWraps(e.addrLow);
      RoundDownExact(Wrap(e.addrLow + e.lenLow), 0);
      assert Clears(e, 0) && !Offers(e, 0);
    }
  }

  // ---------------------------------------------------------------- walking the map

  /** The entry walk from `pos` never wraps around 4 GB: each entry records how many bytes follow its size field. */
  ghost predicate WellFormed(at: nat -> Entry, pos: nat, limit: nat)
    decreases limit - pos
  {
    pos < limit ==> pos + at(pos).size + 4 < WORD && WellFormed(at, pos + at(pos).size + 4, limit)
  }

  /** The entries visited from `pos` on. */
  ghost function Entries(at: nat -> Entry, pos: nat, limit: nat): (r: seq<Entry>)
    decreases limit - pos
  {
    if pos >= limit then [] else [at(pos)] + Entries(at, pos + at(pos).size + 4, limit)
  }

  /** The bytes the first `i` entries take. The field `size` does not count itself. */
  function Offset(es: seq<Entry>, i: nat): nat
    requires i <= |es|
  {
    if i == 0 then 0 else Offset(es, i - 1) + es[i - 1].size + 4
  }

  /** The boot loader has put the entries `es` one behind the other from `addr` up to `limit`. */
  ghost predicate LaidOut(at: nat -> Entry, es: seq<Entry>, addr: nat, limit: nat) {
    addr + Offset(es, |es|) == limit && forall i :: 0 <= i < |es| ==> EntryAt(at, es, addr, i)
  }

  /** Entry `i` lies behind those before it. */
  ghost predicate EntryAt(at: nat -> Entry, es: seq<Entry>, addr: nat, i: nat)
    requires i < |es|
  {
    at(addr + Offset(es, i)) == es[i]
  }

  lemma {:induction false} OffsetTail(es: seq<Entry>, i: nat)
    requires 0 < i <= |es|
    ensures Offset(es, i) == es[0].size + 4 + Offset(es[1..], i - 1)
  {
    if i > 1 { OffsetTail(es, i - 1); }
  }

  lemma EntryAtTail(at: nat -> Entry, es: seq<Entry>, addr: nat, i: nat)
    requires i + 1 < |es| && EntryAt(at, es, addr, i + 1)
    ensures EntryAt(at, es[1..], addr + es[0].size + 4, i)
  {
    OffsetTail(es, i + 1);
    assert addr + Offset(es, i + 1) == addr + es[0].size + 4 + Offset(es[1..], i);
  }

  lemma LaidOutTail(at: nat -> Entry, es: seq<Entry>, addr: nat, limit: nat)
    requires es != [] && LaidOut(at, es, addr, limit)
    ensures addr < limit && at(addr) == es[0] && LaidOut(at, es[1..], addr + es[0].size + 4, limit)
  {
    OffsetTail(es, |es|);
    assert EntryAt(at, es, addr, 0);
    var rest, next := es[1..], addr + es[0].size + 4;
    forall i | 0 <= i < |rest| ensures EntryAt(at, rest, next, i) {
      assert EntryAt(at, es, addr, i + 1);
      EntryAtTail(at, es, addr, i);
    }
  }

  /** The walk visits exactly the entries there are, in order. */
  lemma {:induction false} EntriesLaidOut(at: nat -> Entry, es: seq<Entry>, addr: nat, limit: nat)
    requires LaidOut(at, es, addr, limit)
    ensures Entries(at, addr, limit) == es && (limit < WORD ==> WellFormed(at, addr, limit))
    decreases |es|
  {
    if es != [] {
      LaidOutTail(at, es, addr, limit);
      EntriesLaidOut(at, es[1..], addr + es[0].size + 4, limit);
    }
  }

  ghost predicate Cleared(es: seq<Entry>, f: nat) {
    exists e :: e in es && Clears(e, f)
  }

  lemma ClearedAppend(es: seq<Entry>, e: Entry, f: nat)
    ensures Cleared(es + [e], f) <==> Cleared(es, f) || Clears(e, f)
  {
    if Cleared(es, f) {
      var d :| d in es && Clears(d, f);
      assert d in es + [e];
    }
    if Clears(e, f) { assert (es + [e])[|es|] == e; }
  }

  /** All frames marked as in use. */
  method FillBitmap(bitmap: array<bv32>)
    requires bitmap.Length == WORDS
    modifies bitmap
    ensures forall f :: 0 <= f < FRAMES ==> InUse(bitmap[..], f)
  {
    for i := 0 to WORDS
      invariant forall k :: 0 <= k < i ==> bitmap[k] == FULL
    {
      bitmap[i] := FULL;
    }
    FullExact();
  }

  /** The loop over the pages of one available entry. */
  method ClearEntry(bitmap: array<bv32>, e: Entry)
    requires bitmap.Length == WORDS && e.kind == AVAILABLE && e.addrHigh == 0
    modifies bitmap
    ensures forall f :: 0 <= f < FRAMES ==> (InUse(bitmap[..], f) <==> InUse(old(bitmap[..]), f) && !Clears(e, f))
  {
    var start := RoundUp(e.addrLow);
    var end := RoundDown(Wrap(e.addrLow + e.lenLow));
    ClearPages(bitmap, start / PAGE, end / PAGE);
  }

  method ClearPages(bitmap: array<bv32>, first: nat, last: nat)
    requires bitmap.Length == WORDS && last <= FRAMES
    modifies bitmap
    ensures forall f :: 0 <= f < FRAMES ==> (InUse(bitmap[..], f) <==> InUse(old(bitmap[..]), f) && !(first <= f < last))
  {
    var addr := PAGE * first;
    ghost var n := first;
    while addr < PAGE * last
      invariant addr == PAGE * n && first <= n && (n <= last || n == first)
      invariant forall f :: 0 <= f < FRAMES ==> (InUse(bitmap[..], f) <==> InUse(old(bitmap[..]), f) && !(first <= f < n))
    {
      var page := addr / PAGE;
      if page < FRAMES { UnsetFrame(bitmap, page); }
      addr := addr + PAGE;
      n := n + 1;
    }
  }

  method SetPages(bitmap: array<bv32>, first: nat, last: nat)
    requires bitmap.Length == WORDS
    modifies bitmap
    ensures forall f :: 0 <= f < FRAMES ==> (InUse(bitmap[..], f) <==> InUse(old(bitmap[..]), f) || first <= f < last)
  {
    var i := first;
    while i < last
      invariant first <= i && (i <= last || i == first)
      invariant forall f :: 0 <= f < FRAMES ==> (InUse(bitmap[..], f) <==> InUse(old(bitmap[..]), f) || first <= f < i)
    {
      if i < FRAMES { SetFrame(bitmap, i); }
      i := i + 1;
    }
  }

  method WalkMap(bitmap: array<bv32>, at: nat -> Entry, mmapAddr: nat, limit: nat)
    requires bitmap.Length == WORDS && WellFormed(at, mmapAddr, limit)
    modifies bitmap
    ensures forall f :: 0 <= f < FRAMES ==>
      (InUse(bitmap[..], f) <==> InUse(old(bitmap[..]), f) && !Cleared(Entries(at, mmapAddr, limit), f))
  {
    var pos := mmapAddr;
    ghost var seen: seq<Entry> := [];
    while pos < limit
      invariant WellFormed(at, pos, limit)
      invariant Entries(at, mmapAddr, limit) == seen + Entries(at, pos, limit)
      invariant forall f :: 0 <= f < FRAMES ==> (InUse(bitmap[..], f) <==> InUse(old(bitmap[..]), f) && !Cleared(seen, f))
      decreases limit - pos
    {
      var e := at(pos);
      if e.kind == AVAILABLE && e.addrHigh == 0 {
        ClearEntry(bitmap, e);
      }
      forall f ensures Cleared(seen + [e], f) <==> Cleared(seen, f) || Clears(e, f) { ClearedAppend(seen, e, f); }
      seen := seen + [e];
      pos := pos + e.size + 4;
    }
  }

  // ---------------------------------------------------------------- counting

  ghost function FreeBelow(words: seq<bv32>, n: nat): (r: set<nat>)
    requires |words| == WORDS && n <= FRAMES
  {
    set f | 0 <= f < n && !InUse(words, f)
  }

  lemma FreeBelowStep(words: seq<bv32>, n: nat)
    requires |words| == WORDS && n < FRAMES
    ensures |FreeBelow(words, n + 1)| == |FreeBelow(words, n)| + if InUse(words, n) then 0 else 1
  {
    assert FreeBelow(words, n + 1) == FreeBelow(words, n) + if InUse(words, n) then {} else {n};
  }

  lemma FullWordAdds(words: seq<bv32>, i: nat)
    requires |words| == WORDS && i < WORDS && words[i] == FULL
    ensures FreeBelow(words, 32 * i + 32) == FreeBelow(words, 32 * i)
  {
    FullWord(words, i);
  }

  /** The word-by-word count of clear bits is the number of free frames. */
  method CountFree(bitmap: array<bv32>) returns (n: nat)
    requires bitmap.Length == WORDS
    ensures n == |FreeFrames(bitmap[..])|
  {
    n := 0;
    for i := 0 to WORDS
      invariant n == |FreeBelow(bitmap[..], 32 * i)|
    {
      if bitmap[i] != FULL {
        for j := 0 to 32
          invariant n == |FreeBelow(bitmap[..], 32 * i + j)|
        {
          FreeBelowStep(bitmap[..], 32 * i + j);
          var used := HasBit(bitmap[i], j);
          if !used { n := n + 1; }
        }
      } else {
        FullWordAdds(bitmap[..], i);
      }
    }
    assert FreeBelow(bitmap[..], FRAMES) == FreeFrames(bitmap[..]);
  }

  // ---------------------------------------------------------------- the whole of pmm_frames_init

  /** Which frames the map at `mmapAddr` leaves free beside a kernel image at [kStart, kEnd]. */
  ghost predicate FreeAtBoot(es: seq<Entry>, kStart: nat, kEnd: nat, f: nat) {
    f >= 256 && !(kStart / PAGE <= f <= kEnd / PAGE) && Cleared(es, f)
  }

  method FramesInit(bitmap: array<bv32>, at: nat -> Entry, mmapAddr: nat, mmapLength: nat, kStart: nat, kEnd: nat)
    returns (totalFreeMemory: nat)
    requires bitmap.Length == WORDS && kEnd < WORD
    requires mmapAddr + mmapLength < WORD && WellFormed(at, mmapAddr, mmapAddr + mmapLength)
    modifies bitmap
    ensures forall f :: 0 <= f < FRAMES ==>
      (!InUse(bitmap[..], f) <==> FreeAtBoot(Entries(at, mmapAddr, mmapAddr + mmapLength), kStart, kEnd, f))
    ensures totalFreeMemory == |FreeFrames(bitmap[..])| * PAGE
  {
    FillBitmap(bitmap);
    WalkMap(bitmap, at, mmapAddr, mmapAddr + mmapLength);
    SetPages(bitmap, kStart / PAGE, kEnd / PAGE + 1);
    SetPages(bitmap, 0, 256);
    var count := CountFree(bitmap);
    totalFreeMemory := count * PAGE;
  }

  /** What should be free: the frames wholly inside some available entry, outside the image at [kStart, kEnd] and
      above the first megabyte. */
  ghost predicate Usable(es: seq<Entry>, kStart: nat, kEnd: nat, f: nat) {
    f >= 256 && !(kStart / PAGE <= f <= kEnd / PAGE) && exists i :: 0 <= i < |es| && Offers(es[i], f)
  }

  /** If every available entry below 4 GB is tame, that is what is free. */
  lemma BootExact(es: seq<Entry>, kStart: nat, kEnd: nat, f: nat)
    requires f < FRAMES && forall e :: e in es && e.kind == AVAILABLE && e.addrHigh == 0 ==> Tame(e)
    ensures FreeAtBoot(es, kStart, kEnd, f) <==> Usable(es, kStart, kEnd, f)
  {
    forall e | e in es ensures Clears(e, f) <==> Offers(e, f) {
      if e.kind == AVAILABLE && e.addrHigh == 0 { TameExact(e, f); }
    }
    if Cleared(es, f) {
      var e :| e in es && Clears(e, f);
      var i :| 0 <= i < |es| && es[i] == e;
      assert Offers(es[i], f);
    }
    if exists i :: 0 <= i < |es| && Offers(es[i], f) {
      var i :| 0 <= i < |es| && Offers(es[i], f);
      assert es[i] in es && Clears(es[i], f);
    }
  }

  /** pmm_frames_init on the map `es` that the boot loader has laid out: exactly the usable frames are free. */
  method FramesInitFor(bitmap: array<bv32>, at: nat -> Entry, ghost es: seq<Entry>, mmapAddr: nat, mmapLength: nat, kStart: nat, kEnd: nat)
    returns (totalFreeMemory: nat)
    requires bitmap.Length == WORDS && kEnd < WORD && mmapAddr + mmapLength < WORD
    requires LaidOut(at, es, mmapAddr, mmapAddr + mmapLength)
    requires forall e :: e in es && e.kind == AVAILABLE && e.addrHigh == 0 ==> Tame(e)
    modifies bitmap
    ensures forall f :: 0 <= f < FRAMES ==> (!InUse(bitmap[..], f) <==> Usable(es, kStart, kEnd, f))
    ensures totalFreeMemory == |FreeFrames(bitmap[..])| * PAGE
  {
    EntriesLaidOut(at, es, mmapAddr, mmapAddr + mmapLength);
    totalFreeMemory := FramesInit(bitmap, at, mmapAddr, mmapLength, kStart, kEnd);
    forall f | 0 <= f < FRAMES ensures !InUse(bitmap[..], f) <==> Usable(es, kStart, kEnd, f) { BootExact(es, kStart, kEnd, f); }
  }
}
