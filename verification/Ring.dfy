/** Places in a circular memory hole.

    A hole of `size` bytes is mapped a second time for `extra` bytes, so that a virtual offset runs
    from 0 to `size + extra`. The place `d` bytes after place `p` is `Norm(p + d, size)` for any
    distance of up to one lap, and all distances in this project are. */
module Ring {

  type Byte = b: int | 0 <= b < 256 witness 0

  const SAFETY_WINDOW: nat := 8
  const TWO31: int := 0x8000_0000
  const TWO32: int := 0x1_0000_0000
  const TWO64: int := 0x1_0000_0000_0000_0000

  /** Sizes are `int` in the library; a hole is a whole number of pages, so a size within
      SAFETY_WINDOW bytes of 2^31 cannot occur. */
  const MAX_HOLE: int := TWO31 - SAFETY_WINDOW

  /** The 32-bit unsigned word that a C expression of value `x` is stored as. */
  function U32(x: int): (r: int)
    ensures 0 <= r < TWO32
    ensures 0 <= x < TWO32 ==> r == x
  {
    x % TWO32
  }

  /** The 32-bit two's complement integer that a C expression of value `x` is stored as. */
  function I32(x: int): (r: int)
    ensures -TWO31 <= r < TWO31
    ensures -TWO31 <= x < TWO31 ==> r == x
  {
    var u := U32(x);
    if u < TWO31 then u else u - TWO32
  }

  /** `x` brought back below `size`; the library subtracts the size at most once. */
  function Norm(x: nat, size: nat): (r: nat)
    ensures x < 2 * size ==> r < size
    ensures x < size ==> r == x
  {
    if x >= size then x - size else x
  }

  /** Going on by `a` and then by `c` is going on by both, within a lap. */
  lemma NormNorm(q: nat, a: nat, c: nat, size: nat)
    requires q < size && a + c <= size
    ensures Norm(Norm(q + a, size) + c, size) == Norm(q + (a + c), size) < size
  {
  }

  /** The bytes that a program sees at virtual offsets `v` to `v + n`. */
  function View(mem: seq<Byte>, v: nat, n: nat): (r: seq<Byte>)
    requires v + n <= 2 * |mem|
    ensures |r| == n
    ensures forall i :: 0 <= i < n ==> r[i] == mem[Norm(v + i, |mem|)]
  {
    seq(n, i requires 0 <= i < n => mem[Norm(v + i, |mem|)])
  }

  lemma SliceOfSlice<T>(s: seq<T>, a: nat, b: nat, c: nat, d: nat)
    requires a <= b <= |s| && c <= d <= b - a
    ensures s[a..b][c..d] == s[a + c..a + d]
  {
    assert forall i :: c <= i < d ==> s[a..b][i] == s[a + i];
  }

  /** From place `q` on, the ring holds `data`. */
  ghost predicate Holds(mem: seq<Byte>, q: nat, data: seq<Byte>)
  {
    q < |mem| && |data| <= |mem| && View(mem, q, |data|) == data
  }

  /** The place `a` bytes after `q` shows what is held from there on, in either mapping. */
  lemma HoldsShows(mem: seq<Byte>, q: nat, data: seq<Byte>, a: nat, v: nat, n: nat)
    requires Holds(mem, q, data) && a + n <= |data|
    requires v < 2 * |mem| && v + n <= 2 * |mem| && Norm(v, |mem|) == Norm(q + a, |mem|)
    ensures View(mem, v, n) == data[a..a + n]
  {
    forall i | 0 <= i < n
      ensures View(mem, v, n)[i] == data[a..a + n][i]
    {
      assert Norm(v + i, |mem|) == Norm(q + (a + i), |mem|);
      assert View(mem, q, |data|)[a + i] == data[a + i];
    }
  }

  /** A byte stored after what is held, less than a lap on, leaves it alone. */
  lemma WriteKeeps(mem: seq<Byte>, q: nat, data: seq<Byte>, j: nat, b: Byte)
    requires Holds(mem, q, data) && |data| <= j < |mem|
    ensures Holds(mem[Norm(q + j, |mem|) := b], q, data)
  {
    var mem', n := mem[Norm(q + j, |mem|) := b], |data|;
    forall i | 0 <= i < n
      ensures View(mem', q, n)[i] == View(mem, q, n)[i]
    {
    }
  }

  /** What lies in the ring after the held bytes can be counted in. */
  lemma HoldsExtends(mem: seq<Byte>, q: nat, data: seq<Byte>, v: nat, n: nat)
    requires Holds(mem, q, data) && |data| + n <= |mem|
    requires v < |mem| && v == Norm(q + |data|, |mem|)
    ensures Holds(mem, q, data + View(mem, v, n))
  {
    var all, m := data + View(mem, v, n), |data|;
    forall i | 0 <= i < m + n
      ensures View(mem, q, m + n)[i] == all[i]
    {
      assert i < m ==> View(mem, q, m)[i] == data[i];
    }
  }

  /** What has been taken can be left out. */
  lemma HoldsDrops(mem: seq<Byte>, q: nat, data: seq<Byte>, a: nat)
    requires Holds(mem, q, data) && a <= |data|
    ensures Holds(mem, Norm(q + a, |mem|), data[a..])
  {
    HoldsShows(mem, q, data, a, Norm(q + a, |mem|), |data| - a);
  }
}
