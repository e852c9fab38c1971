/** Single bits of a 32-bit word: what the shifts and masks of paging/internal.c do to them. */
module WordBits {

  const FULL: bv32 := 0xFFFF_FFFF

  /** The number `k` as a word. */
  function Index(k: nat): (r: bv32)
    requires k < 32
  {
    if k == 0 then 0 else Index(k - 1) + 1
  }

  lemma {:induction false} IndexValue(k: nat)
    requires k < 32
    ensures Index(k) as int == k
  {
    if k > 0 { IndexValue(k - 1); }
  }

  lemma Below(b: bv32)
    requires b as int < 32
    ensures b < 32
  {
  }

  lemma IndexSmall(k: nat)
    requires k < 32
    ensures Index(k) < 32
  {
    IndexValue(k);
    Below(Index(k));
  }

  lemma IndexApart(i: nat, k: nat)
    requires i < 32 && k < 32
    ensures Index(i) == Index(k) <==> i == k
  {
    IndexValue(i);
    IndexValue(k);
  }

  /** Bit `k` of a word, read off by shifting the word down. */
  predicate Bit(w: bv32, k: bv32)
    requires k < 32
  {
    (w >> k) & 1 == 1
  }

  lemma SetBit(w: bv32, i: bv32, k: bv32)
    requires i < 32 && k < 32
    ensures Bit(w | ((1 as bv32) << i), k) <==> i == k || Bit(w, k)
  {
  }

  lemma ClearBit(w: bv32, u: bv32, i: bv32, k: bv32)
    requires i < 32 && k < 32 && u == w & !((1 as bv32) << i)
    ensures Bit(u, k) <==> i != k && Bit(w, k)
  {
  }

  lemma TestBit(w: bv32, k: bv32)
    requires k < 32
    ensures w & ((1 as bv32) << k) != 0 <==> Bit(w, k)
  {
  }

  lemma FullBit(k: bv32)
    requires k < 32
    ensures Bit(FULL, k)
  {
  }

  // ---------------------------------------------------------------- a word as the sequence of its bits

  ghost predicate BitAt(w: bv32, k: nat)
    requires k < 32
  {
    Index(k) < 32 && Bit(w, Index(k))
  }

  /** `bits` are the bits of `w`, bit 0 first. */
  ghost predicate Spells(bits: seq<bool>, w: bv32) {
    |bits| == 32 && forall k: nat {:trigger BitAt(w, k)} :: k < 32 ==> (bits[k] <==> BitAt(w, k))
  }

  lemma Spelled(w: bv32)
    ensures exists bits :: Spells(bits, w)
  {
    var bits := seq(32, k requires 0 <= k < 32 => BitAt(w, k));
    assert Spells(bits, w);
  }

  ghost function Bits(w: bv32): (bits: seq<bool>)
    ensures Spells(bits, w) && |bits| == 32
  {
    Spelled(w);
    var bits :| Spells(bits, w);
    bits
  }

  /** 1 << i */
  function Mask(i: nat): bv32
    requires i < 32
  {
    IndexSmall(i);
    (1 as bv32) << Index(i)
  }

  lemma SetAt(w: bv32, i: nat, k: nat)
    requires i < 32 && k < 32
    ensures BitAt(w | Mask(i), k) <==> k == i || BitAt(w, k)
  {
    IndexSmall(i);
    IndexSmall(k);
    IndexApart(i, k);
    SetBit(w, Index(i), Index(k));
  }

  lemma ClearAt(w: bv32, u: bv32, i: nat, k: nat)
    requires i < 32 && k < 32 && u == w & !Mask(i)
    ensures BitAt(u, k) <==> k != i && BitAt(w, k)
  {
    IndexSmall(i);
    IndexSmall(k);
    IndexApart(i, k);
    ClearBit(w, u, Index(i), Index(k));
  }

  lemma TestAt(w: bv32, i: nat)
    requires i < 32
    ensures w & Mask(i) != 0 <==> BitAt(w, i)
  {
    IndexSmall(i);
    TestBit(w, Index(i));
  }

  lemma FullAt(k: nat)
    requires k < 32
    ensures BitAt(FULL, k)
  {
    IndexSmall(k);
    FullBit(Index(k));
  }

  /** Two words whose bits are related one by one. */
  lemma BitsFrom(w: bv32, u: bv32, i: nat, on: bool)
    requires i < 32 && forall k: nat {:trigger BitAt(w, k)} {:trigger BitAt(u, k)} :: k < 32 ==> (BitAt(u, k) <==> if k == i then on else BitAt(w, k))
    ensures Bits(u) == Bits(w)[i := on]
  {
    var a, b := Bits(w), Bits(u);
    forall k: nat | k < 32 ensures b[k] == a[i := on][k] {
      assert BitAt(w, k) <==> a[k];
      assert BitAt(u, k) <==> b[k];
    }
  }

  /** `w |= 1 << i` switches bit `i` on and leaves the other 31 alone. */
  lemma SetExact(w: bv32, i: nat)
    requires i < 32
    ensures Bits(w | Mask(i)) == Bits(w)[i := true]
  {
    forall k: nat | k < 32 ensures BitAt(w | Mask(i), k) <==> if k == i then true else BitAt(w, k) { SetAt(w, i, k); }
    BitsFrom(w, w | Mask(i), i, true);
  }

  /** `w &= ~(1 << i)` switches it off. */
  lemma ClearExact(w: bv32, i: nat)
    requires i < 32
    ensures Bits(w & !Mask(i)) == Bits(w)[i := false]
  {
    var u := w & !Mask(i);
    forall k: nat | k < 32 ensures BitAt(u, k) <==> if k == i then false else BitAt(w, k) { ClearAt(w, u, i, k); }
    BitsFrom(w, u, i, false);
  }

  /** `w & 1 << i` is non-zero iff bit `i` is on. */
  lemma TestExact(w: bv32, i: nat)
    requires i < 32
    ensures w & Mask(i) != 0 <==> Bits(w)[i]
  {
    TestAt(w, i);
  }

  lemma FullExact()
    ensures forall k :: 0 <= k < 32 ==> Bits(FULL)[k]
  {
    var a := Bits(FULL);
    forall k: nat | k < 32 ensures a[k] { FullAt(k); }
  }

  // ---------------------------------------------------------------- the three expressions

  method WithBit(w: bv32, i: nat) returns (u: bv32)
    requires i < 32
    ensures Bits(u) == Bits(w)[i := true]
  {
    SetExact(w, i);
    u := w | Mask(i);
  }

  method WithoutBit(w: bv32, i: nat) returns (u: bv32)
    requires i < 32
    ensures Bits(u) == Bits(w)[i := false]
  {
    ClearExact(w, i);
    u := w & !Mask(i);
  }

  method HasBit(w: bv32, i: nat) returns (r: bool)
    requires i < 32
    ensures r <==> Bits(w)[i]
  {
    TestExact(w, i);
    r := w & Mask(i) != 0;
  }
}
