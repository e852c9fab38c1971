/** A flat, byte-addressed 32-bit memory and the ways the heap touches it:
    little-endian header words, `memset` and the direction-choosing `memmove`. */
module ByteStore {

  type Byte = x: int | 0 <= x < 256

  const WORD := 0x1_0000_0000

  /** The sum of two 32-bit values, reduced to 32 bits. */
  function Wrap(x: nat): nat {
    if x < WORD then x else x - WORD
  }

  /** The heap block header: `next` (4 bytes), `EOM`, `free`, 2 reserved bytes. */
  datatype Header = Header(next: nat, eom: Byte, free: Byte)

  function LittleEndian(b0: int, b1: int, b2: int, b3: int): int {
    b0 + 0x100 * (b1 + 0x100 * (b2 + 0x100 * b3))
  }

  function HeaderAt(m: seq<Byte>, a: nat): Header
    requires a + 8 <= |m|
  {
    Header(LittleEndian(m[a], m[a + 1], m[a + 2], m[a + 3]), m[a + 4], m[a + 5])
  }

  /** `m2` differs from `m1` at most in the bytes [lo, hi). */
  ghost predicate Within(m1: seq<Byte>, m2: seq<Byte>, lo: int, hi: int) {
    |m1| == |m2| && forall k :: 0 <= k < |m1| && !(lo <= k < hi) ==> m2[k] == m1[k]
  }

  /** `m1` and `m2` hold the same bytes in [lo, hi). */
  ghost predicate Same(m1: seq<Byte>, m2: seq<Byte>, lo: int, hi: int) {
    |m1| == |m2| && forall k :: 0 <= k < |m1| && lo <= k < hi ==> m2[k] == m1[k]
  }

  /** `m2` holds at `dst` the `size` bytes that `m1` held at `src`. */
  ghost predicate Carried(m1: seq<Byte>, m2: seq<Byte>, dst: int, src: int, size: int) {
    0 <= dst && 0 <= src && dst + size <= |m2| && src + size <= |m1|
    && forall k :: dst <= k < dst + size ==> m2[k] == m1[k - dst + src]
  }

  /** Cutting a word into bytes loses nothing. */
  lemma BytesOfWord(v: nat)
    requires v < WORD
    ensures 0 <= v / 0x100_0000 < 0x100
    ensures LittleEndian(v % 0x100, v / 0x100 % 0x100, v / 0x1_0000 % 0x100, v / 0x100_0000) == v
  {
    var v1 := v / 0x100;
    var v2 := v1 / 0x100;
    assert v2 == v / 0x1_0000 && v2 / 0x100 == v / 0x100_0000;
  }

  method WriteNext(mem: array<Byte>, a: nat, next: nat)
    requires a + 8 <= mem.Length && next < WORD
    modifies mem
    ensures HeaderAt(mem[..], a) == HeaderAt(old(mem[..]), a).(next := next)
    ensures Within(old(mem[..]), mem[..], a, a + 8)
  {
    BytesOfWord(next);
    var b0, b1, b2, b3 := next % 0x100, next / 0x100 % 0x100, next / 0x1_0000 % 0x100, next / 0x100_0000;
    mem[a], mem[a + 1], mem[a + 2], mem[a + 3] := b0, b1, b2, b3;
  }

  method WriteFree(mem: array<Byte>, a: nat, free: Byte)
    requires a + 8 <= mem.Length
    modifies mem
    ensures HeaderAt(mem[..], a) == HeaderAt(old(mem[..]), a).(free := free)
    ensures Within(old(mem[..]), mem[..], a, a + 8)
  {
    mem[a + 5] := free;
  }

  method WriteHeader(mem: array<Byte>, a: nat, eom: Byte, free: Byte, next: nat)
    requires a + 8 <= mem.Length && next < WORD
    modifies mem
    ensures HeaderAt(mem[..], a) == Header(next, eom, free)
    ensures Within(old(mem[..]), mem[..], a, a + 8)
  {
    mem[a + 4] := eom;
    WriteFree(mem, a, free);
    WriteNext(mem, a, next);
  }

  method MemSet(mem: array<Byte>, dst: nat, value: Byte, size: nat)
    requires dst + size <= mem.Length
    modifies mem
    ensures forall k :: dst <= k < dst + size ==> mem[k] == value
    ensures Within(old(mem[..]), mem[..], dst, dst + size)
  {
    for i := 0 to size
      invariant forall k :: dst <= k < dst + i ==> mem[k] == value
      invariant Within(old(mem[..]), mem[..], dst, dst + i)
    {
      mem[dst + i] := value;
    }
  }

  /** Correct for overlapping ranges too: the destination ends up with the *old* source bytes. */
  method MemMove(mem: array<Byte>, dst: nat, src: nat, size: nat)
    requires dst + size <= mem.Length && src + size <= mem.Length
    modifies mem
    ensures Carried(old(mem[..]), mem[..], dst, src, size)
    ensures Within(old(mem[..]), mem[..], dst, dst + size)
  {
    if dst < src {
      for i := 0 to size
        invariant forall k :: dst <= k < dst + i ==> mem[k] == old(mem[k - dst + src])
        invariant forall k :: 0 <= k < mem.Length && !(dst <= k < dst + i) ==> mem[k] == old(mem[k])
      {
        mem[dst + i] := mem[src + i];
      }
    } else {
      for i := size downto 0
        invariant forall k :: dst + i <= k < dst + size ==> mem[k] == old(mem[k - dst + src])
        invariant forall k :: 0 <= k < mem.Length && !(dst + i <= k < dst + size) ==> mem[k] == old(mem[k])
      {
        mem[dst + i] := mem[src + i];
      }
    }
  }
}
