/** Burst detection: errors within as many consecutive bits as the check is wide never go unnoticed. */
module CrcBurst {
  import opened Crc

  /** The highest bit of a check, and all of its bits. */
  predicate Width(top: Word, mask: Word) {
    (top == 0x8000 && mask == 0xffff) || (top == 0x8000_0000 && mask == 0xffff_ffff)
  }

  function Part(w: Word, mask: Word): Word {
    w & mask
  }

  predicate Within(w: Word, mask: Word) {
    Part(w, mask) == w
  }

  /** A generator of the given width has its highest bit set; this is the constant term. */
  predicate Generator(poly: Word, top: Word, mask: Word) {
    Width(top, mask) && Part(poly, top) == top && Within(poly, mask)
  }

  lemma HalfBits(x: Word)
    ensures x & 0xffff == x ==> (x >> 1) & 0x8000 == 0 && (x >> 1) & 0xffff == x >> 1
    ensures (x >> 1) & 0x8000_0000 == 0 && (x >> 1) & 0xffff_ffff == x >> 1
  {
  }

  lemma PartXorBits(p: Word, h: Word, m: Word)
    requires h & m == 0
    ensures (p ^ h) & m == p & m
  {
  }

  lemma PartXor(p: Word, h: Word, m: Word)
    requires Part(h, m) == 0
    ensures Part(Xor(p, h), m) == Part(p, m)
  {
    PartXorBits(p, h, m);
  }

  lemma WithinXorBits(p: Word, h: Word, m: Word)
    requires p & m == p && h & m == h
    ensures (p ^ h) & m == p ^ h
  {
  }

  lemma WithinXor(p: Word, h: Word, m: Word)
    requires Within(p, m) && Within(h, m)
    ensures Within(Xor(p, h), m)
  {
    WithinXorBits(p, h, m);
  }

  lemma HalfPart(x: Word, top: Word, mask: Word)
    requires Width(top, mask) && Within(x, mask)
    ensures Part(Half(x), top) == 0 && Within(Half(x), mask)
  {
    HalfBits(x);
  }

  lemma HalfTop(p: Word, x: Word, top: Word, mask: Word)
    requires Generator(p, top, mask) && Within(x, mask)
    ensures Part(Half(x), top) == 0 && Within(Half(x), mask)
    ensures Part(Xor(p, Half(x)), top) == top && Within(Xor(p, Half(x)), mask)
  {
    HalfPart(x, top, mask);
    PartXor(p, Half(x), top);
    WithinXor(p, Half(x), mask);
    hide Part, Xor, Half, Within;
  }

  lemma WordFromParts(x: Word, y: Word)
    ensures x >> 1 == y >> 1 && x & 1 == y & 1 ==> x == y
    ensures (x & 1 == 0 || x & 1 == 1) && (y & 1 == 0 || y & 1 == 1)
  {
  }

  /** The highest bit of the new register tells whether the old one was odd. */
  lemma ShiftTop(x: Word, poly: Word, top: Word, mask: Word)
    requires Generator(poly, top, mask) && Within(x, mask)
    ensures Part(Shift(x, poly), top) == if IsOdd(x) then top else 0
    ensures Within(Shift(x, poly), mask)
  {
    HalfTop(poly, x, top, mask);
    hide Xor, Half, IsOdd, Part, Within, Generator;
  }

  lemma SameWord(x: Word, y: Word)
    requires Half(x) == Half(y) && IsOdd(x) == IsOdd(y)
    ensures x == y
  {
    WordFromParts(x, y);
  }

  lemma ShiftInjective(x: Word, y: Word, poly: Word, top: Word, mask: Word)
    requires Generator(poly, top, mask) && Within(x, mask) && Within(y, mask)
    requires Shift(x, poly) == Shift(y, poly)
    ensures x == y
  {
    ShiftTop(x, poly, top, mask);
    ShiftTop(y, poly, top, mask);
    assert top != 0;
    hide Xor, Half, IsOdd, Part, Within, Generator;
    XorCancels(poly, Half(x));
    XorCancels(poly, Half(y));
    SameWord(x, y);
  }

  lemma {:induction false} ShiftsInjective(x: Word, y: Word, poly: Word, top: Word, mask: Word, k: nat)
    requires Generator(poly, top, mask) && Within(x, mask) && Within(y, mask)
    requires Shifts(x, poly, k) == Shifts(y, poly, k)
    ensures x == y
    decreases k
  {
    hide Shift, Generator, Within;
    if k > 0 {
      ShiftTop(x, poly, top, mask);
      ShiftTop(y, poly, top, mask);
      ShiftsInjective(Shift(x, poly), Shift(y, poly), poly, top, mask, k - 1);
      ShiftInjective(x, y, poly, top, mask);
    }
  }

  lemma LowWithin(bit: bool, top: Word, mask: Word)
    requires Width(top, mask)
    ensures Within(Low(bit), mask)
  {
  }

  lemma {:induction false} DivideWithin(c: Word, poly: Word, top: Word, mask: Word, bits: seq<bool>)
    requires Generator(poly, top, mask) && Within(c, mask)
    ensures Within(Divide(c, poly, bits), mask)
    decreases |bits|
  {
    if bits != [] {
      LowWithin(bits[0], top, mask);
      hide Shift, Xor, Low, Within;
      WithinXor(c, Low(bits[0]), mask);
      ShiftTop(Xor(c, Low(bits[0])), poly, top, mask);
      DivideWithin(Shift(Xor(c, Low(bits[0])), poly), poly, top, mask, bits[1..]);
    }
  }

  /** Different registers stay different, whatever the rest of the message is. */
  lemma {:induction false} DivideInjective(c: Word, d: Word, poly: Word, top: Word, mask: Word, bits: seq<bool>)
    requires Generator(poly, top, mask) && Within(c, mask) && Within(d, mask)
    requires Divide(c, poly, bits) == Divide(d, poly, bits)
    ensures c == d
    decreases |bits|
  {
    if bits != [] {
      var low := Low(bits[0]);
      LowWithin(bits[0], top, mask);
      hide Shift, Xor, Low, Within;
      WithinXor(c, low, mask);
      WithinXor(d, low, mask);
      ShiftTop(Xor(c, low), poly, top, mask);
      ShiftTop(Xor(d, low), poly, top, mask);
      DivideInjective(Shift(Xor(c, low), poly), Shift(Xor(d, low), poly), poly, top, mask, bits[1..]);
      ShiftInjective(Xor(c, low), Xor(d, low), poly, top, mask);
      XorCommutes(c, low);
      XorCommutes(d, low);
      XorCancels(low, c);
      XorCancels(low, d);
    }
  }

  // ---- Bits as a word ----

  function Twice(w: Word, bit: bool): Word {
    if bit then (w << 1) | 1 else w << 1
  }

  /** The word whose low bits are the given ones. */
  function Pack(bits: seq<bool>): Word {
    if bits == [] then 0 else Twice(Pack(bits[1..]), bits[0])
  }

  lemma {:induction false} FitsMore(w: Word, j: nat, k: nat)
    requires Fits(w, j) && j <= k
    ensures Fits(w, k)
    decreases k
  {
    if j == 0 {
      assert Half(0) == 0;
      if k > 0 {
        FitsMore(0, 0, k - 1);
      }
    } else {
      FitsMore(Half(w), j - 1, k - 1);
    }
  }

  lemma {:induction false} FitsIsDrop(w: Word, k: nat)
    ensures Fits(w, k) <==> Drop(w, k) == 0
    decreases k
  {
    hide Half;
    if k > 0 {
      FitsIsDrop(Half(w), k - 1);
    }
  }

  lemma {:induction false} DropAdd(w: Word, j: nat, k: nat)
    ensures Drop(Drop(w, j), k) == Drop(w, j + k)
    decreases j
  {
    hide Half;
    if j > 0 {
      DropAdd(Half(w), j - 1, k);
    }
  }

  lemma DropBits(w: Word)
    ensures (((((((w >> 1) >> 1) >> 1) >> 1) >> 1) >> 1) >> 1) >> 1 == w >> 8
    ensures ((((((w >> 1) >> 1) >> 1) >> 1) >> 1) >> 1) >> 1 == w >> 7
    ensures ((((w >> 8) >> 8) >> 8) >> 7) == w >> 31
    ensures w >> 31 == 0 ==> w & 0x8000_0000 == 0
  {
  }

  lemma DropByte(w: Word)
    ensures Drop(w, 8) == w >> 8 && Drop(w, 7) == w >> 7
  {
    DropBits(w);
  }

  lemma FitsTop(w: Word, k: nat)
    requires Fits(w, k) && k <= 31
    ensures Part(w, 0x8000_0000) == 0
  {
    FitsMore(w, k, 31);
    FitsIsDrop(w, 31);
    DropAdd(w, 8, 23);
    DropAdd(Drop(w, 8), 8, 15);
    DropAdd(Drop(Drop(w, 8), 8), 8, 7);
    DropByte(w);
    DropByte(w >> 8);
    DropByte((w >> 8) >> 8);
    DropByte(((w >> 8) >> 8) >> 8);
    hide Drop, Fits;
    DropBits(w);
  }

  lemma TwiceBits(w: Word)
    requires w & 0x8000_0000 == 0
    ensures ((w << 1) | 1) >> 1 == w && (w << 1) >> 1 == w
    ensures ((w << 1) | 1) & 1 == 1 && (w << 1) & 1 == 0
  {
  }

  lemma TwiceHalves(w: Word, bit: bool)
    requires Part(w, 0x8000_0000) == 0
    ensures Half(Twice(w, bit)) == w && IsOdd(Twice(w, bit)) == bit
  {
    TwiceBits(w);
  }

  lemma {:induction false} PackHolds(bits: seq<bool>)
    requires |bits| <= 32
    ensures Bits(Pack(bits), |bits|) == bits && Fits(Pack(bits), |bits|)
    decreases |bits|
  {
    hide Half, IsOdd, Twice, Part;
    if bits != [] {
      PackHolds(bits[1..]);
      FitsTop(Pack(bits[1..]), |bits| - 1);
      TwiceHalves(Pack(bits[1..]), bits[0]);
    }
  }

  lemma SmallBits(w: Word)
    ensures (w >> 8) >> 8 == 0 ==> w & 0xffff == w
    ensures w & 0xffff_ffff == w
  {
  }

  /** A word of no more bits than the check is wide lies within it. */
  lemma FitsWithin(w: Word, k: nat, top: Word, mask: Word)
    requires Width(top, mask) && Fits(w, k) && k <= (if top == 0x8000 then 16 else 32)
    ensures Within(w, mask)
  {
    if top == 0x8000 {
      FitsMore(w, k, 16);
      FitsIsDrop(w, 16);
      DropAdd(w, 8, 8);
      DropByte(w);
      DropByte(w >> 8);
    }
    hide Drop, Fits;
    SmallBits(w);
  }

  // ---- Bursts ----

  /** Two windows of at most as many bits as the check is wide lead to different registers. */
  lemma WindowInjective(c: Word, poly: Word, top: Word, mask: Word, w1: seq<bool>, w2: seq<bool>)
    requires Generator(poly, top, mask) && Within(c, mask)
    requires |w1| == |w2| <= (if top == 0x8000 then 16 else 32)
    requires Divide(c, poly, w1) == Divide(c, poly, w2)
    ensures w1 == w2
  {
    var k, x, y := |w1|, Pack(w1), Pack(w2);
    PackHolds(w1);
    PackHolds(w2);
    WordAtOnce(c, x, poly, k);
    WordAtOnce(c, y, poly, k);
    FitsWithin(x, k, top, mask);
    FitsWithin(y, k, top, mask);
    hide Xor, Within, Pack, Fits, Divide, Shifts;
    WithinXor(c, x, mask);
    WithinXor(c, y, mask);
    ShiftsInjective(Xor(c, x), Xor(c, y), poly, top, mask, k);
    XorCancels(c, x);
    XorCancels(c, y);
  }

  /** Two messages of the same length that differ, but only within as many consecutive bits as the
      check is wide, never get the same check, from any register on. */
  lemma BurstDetected(c: Word, poly: Word, top: Word, mask: Word, a: seq<bool>, b: seq<bool>, i: nat, k: nat)
    requires Generator(poly, top, mask) && Within(c, mask)
    requires |a| == |b| && i + k <= |a| && k <= (if top == 0x8000 then 16 else 32)
    requires a[..i] == b[..i] && a[i + k..] == b[i + k..] && a != b
    ensures Divide(c, poly, a) != Divide(c, poly, b)
  {
    var u, w1, w2, v := a[..i], a[i..i + k], b[i..i + k], a[i + k..];
    assert a == u + (w1 + v) && b == u + (w2 + v);
    DivideConcat(c, poly, u, w1 + v);
    DivideConcat(c, poly, u, w2 + v);
    var s := Divide(c, poly, u);
    DivideConcat(s, poly, w1, v);
    DivideConcat(s, poly, w2, v);
    DivideWithin(c, poly, top, mask, u);
    DivideWithin(s, poly, top, mask, w1);
    DivideWithin(s, poly, top, mask, w2);
    if Divide(c, poly, a) == Divide(c, poly, b) {
      DivideInjective(Divide(s, poly, w1), Divide(s, poly, w2), poly, top, mask, v);
      WindowInjective(s, poly, top, mask, w1, w2);
    }
  }

  /** The same for the byte loops: the messages differ only inside a window of consecutive bits. */
  lemma ByteBurstDetected(c: Word, poly: Word, top: Word, mask: Word, a: seq<Byte>, b: seq<Byte>, i: nat, k: nat)
    requires Generator(poly, top, mask) && Within(c, mask)
    requires |a| == |b| && i + k <= 8 * |a| && k <= (if top == 0x8000 then 16 else 32)
    requires BitsOf(a)[..i] == BitsOf(b)[..i] && BitsOf(a)[i + k..] == BitsOf(b)[i + k..] && a != b
    ensures Run(c, poly, a) != Run(c, poly, b)
  {
    RunIsDivision(c, poly, a);
    RunIsDivision(c, poly, b);
    BitsOfInjective(a, b);
    BurstDetected(c, poly, top, mask, BitsOf(a), BitsOf(b), i, k);
  }

  lemma ExtendInjective(a: Byte, b: Byte)
    requires Extend(a) == Extend(b)
    ensures a == b
  {
  }

  lemma {:induction false} BitsInjective(x: Word, y: Word, k: nat)
    requires Fits(x, k) && Fits(y, k) && Bits(x, k) == Bits(y, k)
    ensures x == y
    decreases k
  {
    hide Half, IsOdd;
    if k > 0 {
      assert Bits(x, k)[0] == Bits(y, k)[0] && Bits(x, k)[1..] == Bits(y, k)[1..];
      BitsInjective(Half(x), Half(y), k - 1);
      SameWord(x, y);
    }
  }

  lemma {:induction false} BitsOfInjective(a: seq<Byte>, b: seq<Byte>)
    requires |a| == |b|
    ensures BitsOf(a) == BitsOf(b) ==> a == b
    decreases |a|
  {
    hide Bits, Extend;
    if a != [] && BitsOf(a) == BitsOf(b) {
      assert BitsOf(a)[..8] == Bits(Extend(a[0]), 8) && BitsOf(a)[8..] == BitsOf(a[1..]);
      assert BitsOf(b)[..8] == Bits(Extend(b[0]), 8) && BitsOf(b)[8..] == BitsOf(b[1..]);
      ByteFits(a[0]);
      ByteFits(b[0]);
      BitsInjective(Extend(a[0]), Extend(b[0]), 8);
      ExtendInjective(a[0], b[0]);
      BitsOfInjective(a[1..], b[1..]);
      assert a == [a[0]] + a[1..] && b == [b[0]] + b[1..];
    }
  }
}
