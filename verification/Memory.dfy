/** The byte loops of boot/libc/memcpy.c and boot/libc/memset.c, and what they do to 32-bit pixels. */
module Memory {

  type Byte = b: int | 0 <= b < 256

  /** The bytes from dst on are those that were at src; all others are as before. */
  ghost predicate Copied(before: seq<Byte>, after: seq<Byte>, dst: nat, src: nat, len: nat) {
    && dst + len <= |before| == |after| && src + len <= |before|
    && (forall k {:trigger after[k]} :: dst <= k < dst + len ==> after[k] == before[k + (src - dst)])
    && (forall k {:trigger after[k]} :: 0 <= k < |after| && !(dst <= k < dst + len) ==> after[k] == before[k])
  }

  ghost predicate Filled(before: seq<Byte>, after: seq<Byte>, dst: nat, v: Byte, count: nat) {
    && dst + count <= |before| == |after|
    && (forall k {:trigger after[k]} :: dst <= k < dst + count ==> after[k] == v)
    && (forall k {:trigger after[k]} :: 0 <= k < |after| && !(dst <= k < dst + count) ==> after[k] == before[k])
  }

  /** memcpy: forwards, so that a source above the destination may overlap it */
  method Memcpy(mem: array<Byte>, dst: nat, src: nat, len: nat)
    requires dst + len <= mem.Length && src + len <= mem.Length
    requires dst <= src || src + len <= dst
    modifies mem
    ensures Copied(old(mem[..]), mem[..], dst, src, len)
  {
    for i := 0 to len
      invariant forall k {:trigger mem[k]} :: dst <= k < dst + i ==> mem[k] == old(mem[k + (src - dst)])
      invariant forall k {:trigger mem[k]} :: 0 <= k < mem.Length && !(dst <= k < dst + i) ==> mem[k] == old(mem[k])
    {
      mem[dst + i] := mem[src + i];
    }
  }

  method Memset(mem: array<Byte>, dst: nat, v: Byte, count: nat)
    requires dst + count <= mem.Length
    modifies mem
    ensures Filled(old(mem[..]), mem[..], dst, v, count)
  {
    for i := 0 to count
      invariant forall k {:trigger mem[k]} :: dst <= k < dst + i ==> mem[k] == v
      invariant forall k {:trigger mem[k]} :: 0 <= k < mem.Length && !(dst <= k < dst + i) ==> mem[k] == old(mem[k])
    {
      mem[dst + i] := v;
    }
  }

  /** Pixel i of a framebuffer, least significant byte first */
  function Pixel(mem: seq<Byte>, i: nat): nat
    requires 4 * i + 4 <= |mem|
  {
    var b0: int, b1: int, b2: int, b3: int := mem[4 * i], mem[4 * i + 1], mem[4 * i + 2], mem[4 * i + 3];
    b0 + 0x100 * b1 + 0x1_0000 * b2 + 0x100_0000 * b3
  }

  /** A pixel whose four bytes are v */
  function Uniform(v: Byte): nat {
    v as int * 0x0101_0101
  }

  /** Copying whole pixels byte by byte moves the pixels. */
  lemma CopiedPixels(before: seq<Byte>, after: seq<Byte>, dst: nat, src: nat, len: nat, i: nat)
    requires Copied(before, after, 4 * dst, 4 * src, 4 * len) && 4 * i + 4 <= |after|
    ensures dst <= i < dst + len ==> Pixel(after, i) == Pixel(before, i + (src - dst))
    ensures !(dst <= i < dst + len) ==> Pixel(after, i) == Pixel(before, i)
  {}

  /** Filling whole pixels makes all four bytes of each the same. */
  lemma FilledPixels(before: seq<Byte>, after: seq<Byte>, dst: nat, v: Byte, len: nat, i: nat)
    requires Filled(before, after, 4 * dst, v, 4 * len) && 4 * i + 4 <= |after|
    ensures dst <= i < dst + len ==> Pixel(after, i) == Uniform(v)
    ensures !(dst <= i < dst + len) ==> Pixel(after, i) == Pixel(before, i)
  {}
}
