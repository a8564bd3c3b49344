/**
 Byte-addressed memory.  The allocator of kernel/memory.c keeps its lists inside the
 memory it hands out, at addresses with no particular alignment, so structure fields
 are little-endian groups of bytes.
 */
module Ram {

  type Byte = b: int | 0 <= b < 256

  function Load16(m: seq<Byte>, a: nat): (v: int)
    requires a + 2 <= |m|
    ensures 0 <= v < 0x1_0000
  {
    m[a] as int + 0x100 * m[a + 1] as int
  }

  function Load32(m: seq<Byte>, a: nat): (v: int)
    requires a + 4 <= |m|
    ensures 0 <= v < 0x1_0000_0000
  {
    Load16(m, a) + 0x1_0000 * Load16(m, a + 2)
  }

  /** m and r agree on every byte outside a, ..., a + n - 1. */
  ghost predicate SameOutside(m: seq<Byte>, r: seq<Byte>, a: int, n: int) {
    |r| == |m| && forall x {:trigger r[x]} :: 0 <= x < |m| && !(a <= x < a + n) ==> r[x] == m[x]
  }

  function Store16(m: seq<Byte>, a: nat, v: int): (r: seq<Byte>)
    requires a + 2 <= |m| && 0 <= v < 0x1_0000
    ensures SameOutside(m, r, a, 2)
    ensures Load16(r, a) == v
  {
    m[a := v % 0x100][a + 1 := v / 0x100]
  }

  function Store32(m: seq<Byte>, a: nat, v: int): (r: seq<Byte>)
    requires a + 4 <= |m| && 0 <= v < 0x1_0000_0000
    ensures SameOutside(m, r, a, 4)
    ensures Load32(r, a) == v
  {
    Store16(Store16(m, a, v % 0x1_0000), a + 2, v / 0x1_0000)
  }
}
