/** The division of the byte loops is the schoolbook division of polynomials over two elements. */
module CrcDivision {
  import opened Crc
  import opened CrcBurst
  import opened CrcResidue

  // Polynomials are sequences of coefficients, highest power first.

  /** `r` is added to the first coefficients of `s`. */
  function XorFront(s: seq<bool>, r: seq<bool>): (t: seq<bool>)
    requires |r| <= |s|
    ensures |t| == |s|
  {
    seq(|s|, i requires 0 <= i < |s| => if i < |r| then s[i] != r[i] else s[i])
  }

  /** Long division: the generator is 1 followed by `g`; it is taken off wherever the leading
      coefficient is 1, until no more than a remainder is left. */
  function LongDivide(s: seq<bool>, g: seq<bool>): seq<bool>
    decreases |s|
  {
    if |s| <= |g| then s else LongDivide(if s[0] then XorFront(s[1..], g) else s[1..], g)
  }

  function Falses(k: nat): (r: seq<bool>)
    ensures |r| == k
  {
    seq(k, _ => false)
  }

  // ---- The register as a polynomial ----

  lemma {:induction false} BitsXor(a: Word, b: Word, k: nat)
    ensures Bits(Xor(a, b), k) == XorFront(Bits(a, k), Bits(b, k))
    decreases k
  {
    hide Xor, Half, IsOdd;
    if k > 0 {
      OddXor(a, b);
      HalfXor(a, b);
      BitsXor(Half(a), Half(b), k - 1);
    }
  }

  lemma {:induction false} FitsXor(a: Word, b: Word, k: nat)
    requires Fits(a, k) && Fits(b, k)
    ensures Fits(Xor(a, b), k)
    decreases k
  {
    hide Xor, Half;
    if k == 0 {
      XorZero(0);
    } else {
      HalfXor(a, b);
      FitsXor(Half(a), Half(b), k - 1);
    }
  }

  lemma HalfOfZero()
    ensures Half(0) == 0 && !IsOdd(0) && Half(1) == 0 && IsOdd(1)
  {
  }

  lemma {:induction false} FitsHalf(c: Word, k: nat)
    requires Fits(c, k)
    ensures Fits(Half(c), k)
    decreases k
  {
    hide Half, IsOdd;
    if k == 0 {
      HalfOfZero();
    } else {
      FitsHalf(Half(c), k - 1);
    }
  }

  lemma {:induction false} BitsHalf(c: Word, k: nat)
    requires k > 0 && Fits(c, k)
    ensures Bits(Half(c), k) == Bits(c, k)[1..] + [false]
    decreases k
  {
    hide Half, IsOdd;
    assert Bits(c, k)[1..] == Bits(Half(c), k - 1);
    if k == 1 {
      HalfOfZero();
      assert Half(c) == 0 by {
        assert Fits(Half(c), 0);
      }
      assert Bits(0, 1) == [false];
    } else {
      BitsHalf(Half(c), k - 1);
      assert Bits(Half(c), k) == [IsOdd(Half(c))] + Bits(Half(Half(c)), k - 1);
      assert Bits(Half(c), k - 1) == [IsOdd(Half(c))] + Bits(Half(c), k - 1)[1..];
    }
  }

  /** One step of the division, on the coefficients. */
  lemma StepBits(c: Word, poly: Word, b: bool, k: nat)
    requires k > 0 && Fits(c, k) && Fits(poly, k)
    ensures var n := Shift(Xor(c, Low(b)), poly);
            && Fits(n, k)
            && Bits(n, k) == if Bits(c, k)[0] != b then XorFront(Bits(c, k)[1..] + [false], Bits(poly, k))
                             else Bits(c, k)[1..] + [false]
  {
    hide Xor, Half, IsOdd, Fits;
    HalfOfZero();
    var x := Xor(c, Low(b));
    OddXor(c, Low(b));
    HalfXor(c, Low(b));
    XorZero(Half(c));
    assert Half(x) == Half(c) && IsOdd(x) == (IsOdd(c) != b);
    assert Bits(c, k)[0] == IsOdd(c);
    FitsHalf(c, k);
    BitsHalf(c, k);
    XorCommutes(poly, Half(c));
    BitsXor(Half(c), poly, k);
    FitsXor(Half(c), poly, k);
  }

  lemma FrontStep(b: bool, rest: seq<bool>, r: seq<bool>, g: seq<bool>)
    requires 0 < |r| <= |rest| && |g| == |r|
    ensures XorFront([b] + rest, r)[0] == (b != r[0])
    ensures XorFront([b] + rest, r)[1..] == XorFront(rest, r[1..] + [false])
    ensures XorFront(XorFront(rest, r[1..] + [false]), g) == XorFront(rest, XorFront(r[1..] + [false], g))
  {
  }

  /** What is left in the register is the remainder of the message, with the register added to its first
      coefficients, times x^k, for every generator of degree k. */
  lemma {:induction false} DivideIsRemainder(c: Word, poly: Word, bits: seq<bool>, k: nat)
    requires k > 0 && Fits(c, k) && Fits(poly, k)
    ensures Bits(Divide(c, poly, bits), k)
         == LongDivide(XorFront(bits + Falses(k), Bits(c, k)), Bits(poly, k))
    decreases |bits|
  {
    hide Shift, Xor, Low, Fits, Bits;
    var r, g := Bits(c, k), Bits(poly, k);
    if bits == [] {
      assert XorFront(Falses(k), r) == r;
      assert [] + Falses(k) == Falses(k);
    } else {
      var n := Shift(Xor(c, Low(bits[0])), poly);
      var rest := bits[1..] + Falses(k);
      StepBits(c, poly, bits[0], k);
      FrontStep(bits[0], rest, r, g);
      assert bits + Falses(k) == [bits[0]] + rest;
      DivideIsRemainder(n, poly, bits[1..], k);
    }
  }

  lemma GeneratorWithin(poly: Word, top: Word, mask: Word)
    requires Generator(poly, top, mask)
    ensures Width(top, mask) && Within(poly, mask)
  {
  }

  /** A byte loop computes a remainder, for the 16-bit and the 32-bit generators alike. */
  lemma RunIsRemainder(c: Word, poly: Word, top: Word, mask: Word, msg: seq<Byte>)
    requires Generator(poly, top, mask) && Within(c, mask)
    ensures var k := 8 * Bytes(top);
            Bits(Run(c, poly, msg), k) == LongDivide(XorFront(BitsOf(msg) + Falses(k), Bits(c, k)), Bits(poly, k))
  {
    GeneratorWithin(poly, top, mask);
    hide Generator, Within, Run, Divide, Bits, BitsOf, Width;
    WithinFits(c, top, mask);
    WithinFits(poly, top, mask);
    RunIsDivision(c, poly, msg);
    DivideIsRemainder(c, poly, BitsOf(msg), 8 * Bytes(top));
  }
}
