/** Cyclic redundancy checks, one message bit at a time.

    A register of up to 32 bits holds the remainder; its lowest bit belongs to the highest power of
    the polynomial. A 16-bit check uses the low half of the register. */
module Crc {
  type Byte = bv8
  type Word = bv32

  function Xor(a: Word, b: Word): Word {
    a ^ b
  }

  function Half(w: Word): Word {
    w >> 1
  }

  predicate IsOdd(w: Word) {
    w & 1 == 1
  }

  /** One step of the division by the generator `poly`. */
  function Shift(c: Word, poly: Word): Word {
    if IsOdd(c) then Xor(poly, Half(c)) else Half(c)
  }

  function Shifts(c: Word, poly: Word, k: nat): Word
    decreases k
  {
    if k == 0 then c else Shifts(Shift(c, poly), poly, k - 1)
  }

  function Low(bit: bool): Word {
    if bit then 1 else 0
  }

  /** Division of a message, bit by bit: a bit enters at the low end, then the register shifts. */
  function Divide(c: Word, poly: Word, bits: seq<bool>): Word
    decreases |bits|
  {
    if bits == [] then c else Divide(Shift(Xor(c, Low(bits[0])), poly), poly, bits[1..])
  }

  /** The low `k` bits of a word, lowest first. */
  function Bits(w: Word, k: nat): (r: seq<bool>)
    ensures |r| == k
    decreases k
  {
    if k == 0 then [] else [IsOdd(w)] + Bits(Half(w), k - 1)
  }

  /** All but the low `k` bits are 0. */
  predicate Fits(w: Word, k: nat)
    decreases k
  {
    if k == 0 then w == 0 else Fits(Half(w), k - 1)
  }

  lemma EightBits(w: Word)
    ensures var w1 := Half(w); var w2 := Half(w1); var w3 := Half(w2); var w4 := Half(w3);
            var w5 := Half(w4); var w6 := Half(w5); var w7 := Half(w6);
            Bits(w, 8) == [IsOdd(w), IsOdd(w1), IsOdd(w2), IsOdd(w3), IsOdd(w4), IsOdd(w5), IsOdd(w6), IsOdd(w7)]
  {
    hide Half, IsOdd;
    FourBits(w);
    FourBits(Half(Half(Half(Half(w)))));
    assert Bits(w, 8) == Bits(w, 4) + Bits(Half(Half(Half(Half(w)))), 4) by {
      BitsSplit(w, 4, 4);
    }
  }

  lemma FourBits(w: Word)
    ensures var w1 := Half(w); var w2 := Half(w1); var w3 := Half(w2);
            Bits(w, 4) == [IsOdd(w), IsOdd(w1), IsOdd(w2), IsOdd(w3)] && Drop(w, 4) == Half(w3)
  {
    hide Half, IsOdd;
  }

  lemma {:induction false} BitsSplit(w: Word, j: nat, k: nat)
    ensures Bits(w, j + k) == Bits(w, j) + Bits(Drop(w, j), k)
    decreases j
  {
    hide Half, IsOdd;
    if j > 0 {
      BitsSplit(Half(w), j - 1, k);
    }
  }

  function Drop(w: Word, k: nat): Word
    decreases k
  {
    if k == 0 then w else Drop(Half(w), k - 1)
  }

  function Extend(b: Byte): Word {
    b as Word
  }

  /** A message of bytes, each sent lowest bit first. */
  function BitsOf(msg: seq<Byte>): (r: seq<bool>)
    ensures |r| == 8 * |msg|
  {
    if msg == [] then [] else Bits(Extend(msg[0]), 8) + BitsOf(msg[1..])
  }

  // ---- Words ----

  lemma AssocBits(a: Word, b: Word, c: Word)
    ensures (a ^ b) ^ c == a ^ (b ^ c)
  {
  }

  lemma XorAssoc(a: Word, b: Word, c: Word)
    ensures Xor(Xor(a, b), c) == Xor(a, Xor(b, c))
  {
    AssocBits(a, b, c);
  }

  lemma XorCommutes(a: Word, b: Word)
    ensures Xor(a, b) == Xor(b, a)
  {
  }

  lemma XorZero(a: Word)
    ensures Xor(a, 0) == a && Xor(0, a) == a && Xor(a, a) == 0
  {
  }

  lemma HalfBits(a: Word, b: Word)
    ensures (a ^ b) >> 1 == (a >> 1) ^ (b >> 1)
  {
  }

  lemma HalfXor(a: Word, b: Word)
    ensures Half(Xor(a, b)) == Xor(Half(a), Half(b))
  {
    HalfBits(a, b);
  }

  /** Terms of a sum can be paired anew. */
  lemma XorPairs(a: Word, b: Word, c: Word, d: Word)
    ensures Xor(Xor(a, b), Xor(c, d)) == Xor(Xor(a, c), Xor(b, d))
  {
    hide Xor;
    XorAssoc(a, b, Xor(c, d));
    XorAssoc(b, c, d);
    XorCommutes(b, c);
    XorAssoc(c, b, d);
    XorAssoc(a, c, Xor(b, d));
  }

  /** A term added twice is gone. */
  lemma XorCancels(a: Word, b: Word)
    ensures Xor(a, Xor(a, b)) == b
  {
    hide Xor;
    XorAssoc(a, a, b);
    XorZero(a);
    XorZero(b);
  }

  lemma OddBits(x: Word, y: Word)
    ensures (x ^ y) & 1 == (x & 1) ^ (y & 1) && (x & 1 == 0 || x & 1 == 1) && (y & 1 == 0 || y & 1 == 1)
  {
  }

  lemma OddXor(x: Word, y: Word)
    ensures IsOdd(Xor(x, y)) == (IsOdd(x) != IsOdd(y))
  {
    OddBits(x, y);
  }

  // ---- Division is linear ----

  lemma ShiftLinear(x: Word, y: Word, poly: Word)
    ensures Shift(Xor(x, y), poly) == Xor(Shift(x, poly), Shift(y, poly))
  {
    hide Xor, Half, IsOdd;
    var h, k := Half(x), Half(y);
    OddXor(x, y);
    HalfXor(x, y);
    XorPairs(poly, h, poly, k);
    XorZero(poly);
    XorZero(Xor(h, k));
    XorAssoc(poly, h, k);
    XorAssoc(h, poly, k);
    XorCommutes(h, poly);
  }

  lemma {:induction false} ShiftsLinear(x: Word, y: Word, poly: Word, k: nat)
    ensures Shifts(Xor(x, y), poly, k) == Xor(Shifts(x, poly, k), Shifts(y, poly, k))
    decreases k
  {
    hide Shift, Xor;
    if k > 0 {
      ShiftLinear(x, y, poly);
      ShiftsLinear(Shift(x, poly), Shift(y, poly), poly, k - 1);
    }
  }

  lemma {:induction false} ShiftsAdd(c: Word, poly: Word, j: nat, k: nat)
    ensures Shifts(Shifts(c, poly, j), poly, k) == Shifts(c, poly, j + k)
    decreases j
  {
    hide Shift;
    if j > 0 {
      ShiftsAdd(Shift(c, poly), poly, j - 1, k);
    }
  }

  // ---- Whole words at a time ----

  lemma EvenBits(w: Word)
    ensures (w & 1) ^ (w & 0xfffffffe) == w && (w & 0xfffffffe) & 1 == 0 && (w & 0xfffffffe) >> 1 == w >> 1
    ensures w & 1 == 0 || w & 1 == 1
  {
  }

  lemma EnterLowBit(c: Word, w: Word, poly: Word)
    ensures Shift(Xor(c, w), poly) == Xor(Shift(Xor(c, Low(IsOdd(w))), poly), Half(w))
  {
    var even := w & 0xfffffffe;
    EvenBits(w);
    assert Xor(Low(IsOdd(w)), even) == w && !IsOdd(even) && Half(even) == Half(w);
    hide Xor, Half, IsOdd, Low;
    XorAssoc(c, Low(IsOdd(w)), even);
    ShiftLinear(Xor(c, Low(IsOdd(w))), even, poly);
  }

  /** Entering a word of `k` bits at once, and then shifting k times, is entering its bits one by one. */
  lemma {:induction false} WordAtOnce(c: Word, w: Word, poly: Word, k: nat)
    requires Fits(w, k)
    ensures Divide(c, poly, Bits(w, k)) == Shifts(Xor(c, w), poly, k)
    decreases k
  {
    hide Shift, Xor, Low, IsOdd, Half;
    if k == 0 {
      XorZero(c);
    } else {
      EnterLowBit(c, w, poly);
      assert Bits(w, k)[1..] == Bits(Half(w), k - 1);
      WordAtOnce(Shift(Xor(c, Low(IsOdd(w))), poly), Half(w), poly, k - 1);
    }
  }

  lemma ByteFits(b: Byte)
    ensures Fits(Extend(b), 8)
  {
    var w := Extend(b);
    assert ((((((((w >> 1) >> 1) >> 1) >> 1) >> 1) >> 1) >> 1) >> 1) == 0;
  }

  // ---- Sequences of bits ----

  lemma {:induction false} DivideConcat(c: Word, poly: Word, a: seq<bool>, b: seq<bool>)
    ensures Divide(c, poly, a + b) == Divide(Divide(c, poly, a), poly, b)
    decreases |a|
  {
    hide Shift, Xor, Low;
    if a == [] {
      assert a + b == b;
    } else {
      assert (a + b)[1..] == a[1..] + b;
      DivideConcat(Shift(Xor(c, Low(a[0])), poly), poly, a[1..], b);
    }
  }

  lemma {:induction false} BitsOfConcat(a: seq<Byte>, b: seq<Byte>)
    ensures BitsOf(a + b) == BitsOf(a) + BitsOf(b)
    decreases |a|
  {
    hide Bits, Extend;
    if a == [] {
      assert a + b == b;
    } else {
      assert (a + b)[1..] == a[1..] + b;
      BitsOfConcat(a[1..], b);
    }
  }

  // ---- A byte at a time, by table ----

  /** What a table holds for a byte. */
  function Entry(b: Byte, poly: Word): Word {
    Shifts(Extend(b), poly, 8)
  }

  function LowByte(w: Word): Byte {
    assert w & 0xff < 0x100;
    (w & 0xff) as Byte
  }

  function Upper(w: Word): Word {
    w & 0xffffff00
  }

  function HighPart(w: Word): Word {
    w >> 8
  }

  /** One turn of a byte loop. */
  function Feed(c: Word, poly: Word, b: Byte): Word {
    Xor(Entry(LowByte(Xor(c, Extend(b))), poly), HighPart(c))
  }

  /** All turns of a byte loop. */
  function Run(c: Word, poly: Word, msg: seq<Byte>): Word
    decreases |msg|
  {
    if msg == [] then c else Run(Feed(c, poly, msg[0]), poly, msg[1..])
  }

  predicate Zeros(w: Word, k: nat)
    decreases k
  {
    k == 0 || (!IsOdd(w) && Zeros(Half(w), k - 1))
  }

  lemma {:induction false} ShiftsOfZeros(w: Word, poly: Word, k: nat)
    requires Zeros(w, k)
    ensures Shifts(w, poly, k) == Drop(w, k)
    decreases k
  {
    hide Half, IsOdd, Xor;
    if k > 0 {
      ShiftsOfZeros(Half(w), poly, k - 1);
    }
  }

  lemma UpperBits(x: Word)
    ensures var h := x & 0xffffff00;
            && h & 1 == 0 && (h >> 1) & 1 == 0 && ((h >> 1) >> 1) & 1 == 0 && (((h >> 1) >> 1) >> 1) & 1 == 0
            && ((((h >> 1) >> 1) >> 1) >> 1) & 1 == 0
            && (((((h >> 1) >> 1) >> 1) >> 1) >> 1) & 1 == 0
            && ((((((h >> 1) >> 1) >> 1) >> 1) >> 1) >> 1) & 1 == 0
            && (((((((h >> 1) >> 1) >> 1) >> 1) >> 1) >> 1) >> 1) & 1 == 0
            && ((((((((h >> 1) >> 1) >> 1) >> 1) >> 1) >> 1) >> 1) >> 1) == x >> 8
  {
  }

  lemma UpperHalves(x: Word)
    ensures var h1 := Half(Upper(x)); var h2 := Half(h1); var h3 := Half(h2); var h4 := Half(h3);
            var h5 := Half(h4); var h6 := Half(h5); var h7 := Half(h6);
            && !IsOdd(Upper(x)) && !IsOdd(h1) && !IsOdd(h2) && !IsOdd(h3)
            && !IsOdd(h4) && !IsOdd(h5) && !IsOdd(h6) && !IsOdd(h7)
            && Half(h7) == HighPart(x)
  {
    UpperBits(x);
  }

  lemma UpperZeros(x: Word)
    ensures Zeros(Upper(x), 8) && Drop(Upper(x), 8) == HighPart(x)
  {
    UpperHalves(x);
    hide Half, IsOdd, Upper, HighPart;
  }

  lemma SplitBits(x: Word, c: Word, b: Byte)
    ensures x & 0xff < 0x100 && ((x & 0xff) as Byte) as Word == x & 0xff
    ensures (x & 0xff) ^ (x & 0xffffff00) == x
    ensures (c ^ (b as Word)) >> 8 == c >> 8
  {
  }

  lemma SplitWord(x: Word)
    ensures Xor(Extend(LowByte(x)), Upper(x)) == x
  {
    SplitBits(x, 0, 0);
    assert Extend(LowByte(x)) == x & 0xff;
  }

  lemma HighStays(c: Word, b: Byte)
    ensures HighPart(Xor(c, Extend(b))) == HighPart(c)
  {
    SplitBits(0, c, b);
  }

  /** A turn of the byte loop is eight steps of the division. */
  lemma FeedIsEightBits(c: Word, poly: Word, b: Byte)
    ensures Feed(c, poly, b) == Divide(c, poly, Bits(Extend(b), 8))
  {
    hide Xor, Extend, LowByte, Upper, HighPart, Drop, Zeros, Shift, Shifts, Divide, Bits, Fits;
    var x := Xor(c, Extend(b));
    SplitWord(x);
    HighStays(c, b);
    UpperZeros(x);
    ShiftsLinear(Extend(LowByte(x)), Upper(x), poly, 8);
    ShiftsOfZeros(Upper(x), poly, 8);
    ByteFits(b);
    WordAtOnce(c, Extend(b), poly, 8);
  }

  /** Table form equals division, for every message, register and generator. */
  lemma {:induction false} RunIsDivision(c: Word, poly: Word, msg: seq<Byte>)
    ensures Run(c, poly, msg) == Divide(c, poly, BitsOf(msg))
    decreases |msg|
  {
    hide Feed, Bits, Shift, Xor, Extend;
    if msg != [] {
      FeedIsEightBits(c, poly, msg[0]);
      RunIsDivision(Feed(c, poly, msg[0]), poly, msg[1..]);
      DivideConcat(c, poly, Bits(Extend(msg[0]), 8), BitsOf(msg[1..]));
    }
  }

  /** Messages can be checked piece by piece. */
  lemma RunConcat(c: Word, poly: Word, a: seq<Byte>, b: seq<Byte>)
    ensures Run(c, poly, a + b) == Run(Run(c, poly, a), poly, b)
  {
    RunIsDivision(c, poly, a + b);
    RunIsDivision(c, poly, a);
    RunIsDivision(Run(c, poly, a), poly, b);
    BitsOfConcat(a, b);
    DivideConcat(c, poly, BitsOf(a), BitsOf(b));
  }
}
