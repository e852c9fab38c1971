/** The page-frame bitmap: one bit per 4 KB frame in 32-bit words, set when the frame is in use. */
module FrameBitmap {
  import opened WordBits

  const FRAMES := 0x10_0000
  const WORDS := 32768

  /** Is frame `f` marked as in use? */
  ghost predicate InUse(words: seq<bv32>, f: nat)
    requires |words| == WORDS && f < FRAMES
  {
    Bits(words[f / 32])[f % 32]
  }

  ghost function FreeFrames(words: seq<bv32>): (r: set<nat>)
    requires |words| == WORDS
    ensures forall f :: f in r <==> 0 <= f < FRAMES && !InUse(words, f)
  {
    set f | 0 <= f < FRAMES && !InUse(words, f)
  }

  /** Changing one bit of one word says nothing about any other frame. */
  lemma OneBit(words: seq<bv32>, after: seq<bv32>, bit: nat, on: bool)
    requires |words| == |after| == WORDS && bit < FRAMES && after == words[bit / 32 := after[bit / 32]]
    requires Bits(after[bit / 32]) == Bits(words[bit / 32])[bit % 32 := on]
    ensures forall f :: 0 <= f < FRAMES ==> (InUse(after, f) <==> if f == bit then on else InUse(words, f))
  {
  }

  method SetFrame(bitmap: array<bv32>, bit: nat)
    requires bitmap.Length == WORDS && bit < FRAMES
    modifies bitmap
    ensures forall f :: 0 <= f < FRAMES ==> (InUse(bitmap[..], f) <==> f == bit || InUse(old(bitmap[..]), f))
  {
    var word := WithBit(bitmap[bit / 32], bit % 32);
    bitmap[bit / 32] := word;
    OneBit(old(bitmap[..]), bitmap[..], bit, true);
  }

  method UnsetFrame(bitmap: array<bv32>, bit: nat)
    requires bitmap.Length == WORDS && bit < FRAMES
    modifies bitmap
    ensures forall f :: 0 <= f < FRAMES ==> (InUse(bitmap[..], f) <==> f != bit && InUse(old(bitmap[..]), f))
  {
    var word := WithoutBit(bitmap[bit / 32], bit % 32);
    bitmap[bit / 32] := word;
    OneBit(old(bitmap[..]), bitmap[..], bit, false);
  }

  method TestFrame(bitmap: array<bv32>, bit: nat) returns (r: bool)
    requires bitmap.Length == WORDS && bit < FRAMES
    ensures r <==> InUse(bitmap[..], bit)
  {
    r := HasBit(bitmap[bit / 32], bit % 32);
  }

  /** In a full word no frame is free. */
  lemma FullWord(words: seq<bv32>, i: nat)
    requires |words| == WORDS && i < WORDS && words[i] == FULL
    ensures forall f :: 32 * i <= f < 32 * i + 32 ==> InUse(words, f)
  {
    FullExact();
  }

  /** pmm_alloc_frame_int: the lowest free frame is taken; its address is returned, 0 if there is none. */
  method AllocFrame(bitmap: array<bv32>) returns (address: nat)
    requires bitmap.Length == WORDS
    requires forall f :: 0 <= f < 256 ==> InUse(bitmap[..], f)
    modifies bitmap
    ensures address == 0 ==> bitmap[..] == old(bitmap[..]) && forall f :: 0 <= f < FRAMES ==> InUse(bitmap[..], f)
    ensures address != 0 ==> address % 4096 == 0 && 256 <= address / 4096 < FRAMES
    ensures address != 0 ==> !InUse(old(bitmap[..]), address / 4096)
    ensures address != 0 ==> forall f :: 0 <= f < address / 4096 ==> InUse(old(bitmap[..]), f)
    ensures address != 0 ==>
      forall f :: 0 <= f < FRAMES ==> (InUse(bitmap[..], f) <==> f == address / 4096 || InUse(old(bitmap[..]), f))
  {
    for i := 0 to WORDS
      invariant bitmap[..] == old(bitmap[..])
      invariant forall f :: 0 <= f < 32 * i ==> InUse(bitmap[..], f)
    {
      if bitmap[i] != FULL {
        for j := 0 to 32
          invariant bitmap[..] == old(bitmap[..])
          invariant forall f :: 0 <= f < 32 * i + j ==> InUse(bitmap[..], f)
        {
          var bitIdx := i * 32 + j;
          var inUse := TestFrame(bitmap, bitIdx);
          if !inUse {
            SetFrame(bitmap, bitIdx);
            return bitIdx * 4096;
          }
        }
      } else {
        FullWord(bitmap[..], i);
      }
    }
    return 0;
  }
}
