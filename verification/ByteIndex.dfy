/** Bytes as indices into a table of 256 entries. */
module ByteIndex {

  function Index(b: bv8): (i: nat)
    ensures i < 256
  {
    b as nat
  }

  /** Byte number `n`. */
  function ByteAt(n: nat): bv8
    requires n < 256
  {
    if n == 0 then 0 else ByteAt(n - 1) + 1
  }

  lemma NextIndex(b: bv8)
    requires b as nat < 255
    ensures (b + 1) as nat == b as nat + 1
  {
    assert b != 255;
  }

  lemma {:induction false} IndexOf(n: nat)
    requires n < 256
    ensures Index(ByteAt(n)) == n
  {
    if n > 0 {
      IndexOf(n - 1);
      NextIndex(ByteAt(n - 1));
    }
  }

  lemma IndexInjective(a: bv8, b: bv8)
    requires Index(a) == Index(b)
    ensures a == b
  {
  }
}
