/** The good-FCS constants: a message followed by its complemented check leaves a register that does
    not depend on the message, and nothing but that check does. */
module CrcResidue {
  import opened Crc
  import opened CrcBurst

  const ETHERNET: Word := 0xedb8_8320   // also FCS-32 of PPP
  const FCS16: Word := 0x8408
  const VCRC: Word := 0xd008
  const GOOD_FCS32: Word := 0xdebb_20e3
  const GOOD_FCS16: Word := 0xf0b8

  function Not(w: Word, mask: Word): Word {
    Xor(w, mask)
  }

  /** The bytes of a word, lowest first. */
  function LeBytes(w: Word, n: nat): (r: seq<Byte>)
    ensures |r| == n
    decreases n
  {
    if n == 0 then [] else [LowByte(w)] + LeBytes(HighPart(w), n - 1)
  }

  lemma LowHalves(w: Word)
    ensures ((w & 0xff) as Byte) as Word == w & 0xff
    ensures (w & 0xff) & 1 == w & 1 && ((w & 0xff) >> 1) & 1 == (w >> 1) & 1
    ensures (((w & 0xff) >> 1) >> 1) & 1 == ((w >> 1) >> 1) & 1
    ensures ((((w & 0xff) >> 1) >> 1) >> 1) & 1 == (((w >> 1) >> 1) >> 1) & 1
    ensures (((((w & 0xff) >> 1) >> 1) >> 1) >> 1) & 1 == ((((w >> 1) >> 1) >> 1) >> 1) & 1
    ensures ((((((w & 0xff) >> 1) >> 1) >> 1) >> 1) >> 1) & 1 == (((((w >> 1) >> 1) >> 1) >> 1) >> 1) & 1
    ensures (((((((w & 0xff) >> 1) >> 1) >> 1) >> 1) >> 1) >> 1) & 1 == ((((((w >> 1) >> 1) >> 1) >> 1) >> 1) >> 1) & 1
    ensures ((((((((w & 0xff) >> 1) >> 1) >> 1) >> 1) >> 1) >> 1) >> 1) & 1
         == (((((((w >> 1) >> 1) >> 1) >> 1) >> 1) >> 1) >> 1) & 1
  {
  }

  lemma LowByteBits(w: Word)
    ensures Bits(Extend(LowByte(w)), 8) == Bits(w, 8)
  {
    LowHalves(w);
  }

  /** The bytes of a word are its bits. */
  lemma {:induction false} LeBytesBits(w: Word, n: nat)
    ensures BitsOf(LeBytes(w, n)) == Bits(w, 8 * n)
    decreases n
  {
    if n > 0 {
      LowByteBits(w);
      BitsSplit(w, 8, 8 * (n - 1));
      DropByte(w);
      hide Bits, LowByte, Drop;
      assert LeBytes(w, n)[1..] == LeBytes(HighPart(w), n - 1);
      LeBytesBits(HighPart(w), n - 1);
    }
  }

  function Bytes(top: Word): nat {
    if top == 0x8000 then 2 else 4
  }

  lemma DropAllBits(w: Word)
    ensures ((((w >> 8) >> 8) >> 8) >> 8) == 0
    ensures w & 0xffff == w ==> (w >> 8) >> 8 == 0
  {
  }

  lemma WithinDrops(w: Word, top: Word, mask: Word)
    requires Width(top, mask) && Within(w, mask)
    ensures ((((w >> 8) >> 8) >> 8) >> 8) == 0
    ensures top == 0x8000 ==> (w >> 8) >> 8 == 0
  {
    DropAllBits(w);
  }

  lemma WithinFits(w: Word, top: Word, mask: Word)
    requires Width(top, mask) && Within(w, mask)
    ensures Fits(w, 8 * Bytes(top))
  {
    WithinDrops(w, top, mask);
    FitsIsDrop(w, 8 * Bytes(top));
    DropAdd(w, 8, 8 * (Bytes(top) - 1));
    DropAdd(w >> 8, 8, 8 * (Bytes(top) - 2));
    DropByte(w);
    DropByte(w >> 8);
    if top != 0x8000 {
      DropAdd((w >> 8) >> 8, 8, 8);
      DropByte((w >> 8) >> 8);
      DropByte(((w >> 8) >> 8) >> 8);
    }
    hide Fits, Within;
  }

  lemma MaskWithin(top: Word, mask: Word)
    requires Width(top, mask)
    ensures Within(mask, mask)
  {
  }

  lemma RunWithin(c: Word, poly: Word, top: Word, mask: Word, msg: seq<Byte>)
    requires Generator(poly, top, mask) && Within(c, mask)
    ensures Within(Run(c, poly, msg), mask)
  {
    RunIsDivision(c, poly, msg);
    DivideWithin(c, poly, top, mask, BitsOf(msg));
  }

  /** The complemented check, low byte first, takes any register to the same constant. */
  lemma CheckGivesResidue(s: Word, poly: Word, top: Word, mask: Word)
    requires Generator(poly, top, mask) && Within(s, mask)
    ensures Run(s, poly, LeBytes(Not(s, mask), Bytes(top))) == Shifts(mask, poly, 8 * Bytes(top))
  {
    var w, n := Not(s, mask), Bytes(top);
    MaskWithin(top, mask);
    WithinXor(s, mask, mask);
    WithinFits(w, top, mask);
    hide Xor, Within, Width, Fits, Bits, BitsOf, Run, Divide, Shifts, LeBytes;
    RunIsDivision(s, poly, LeBytes(w, n));
    LeBytesBits(w, n);
    WordAtOnce(s, w, poly, 8 * n);
    XorCancels(s, mask);
  }

  /** A message with something appended leaves the good constant exactly when that something is its
      complemented check. */
  lemma ResidueExactly(c: Word, poly: Word, top: Word, mask: Word, msg: seq<Byte>, tail: seq<Byte>)
    requires Generator(poly, top, mask) && Within(c, mask) && |tail| == Bytes(top)
    ensures Run(c, poly, msg + tail) == Shifts(mask, poly, 8 * |tail|) <==>
              tail == LeBytes(Not(Run(c, poly, msg), mask), |tail|)
  {
    var s := Run(c, poly, msg);
    var good := LeBytes(Not(s, mask), |tail|);
    RunConcat(c, poly, msg, tail);
    RunWithin(c, poly, top, mask, msg);
    CheckGivesResidue(s, poly, top, mask);
    RunIsDivision(s, poly, tail);
    RunIsDivision(s, poly, good);
    if Run(s, poly, tail) == Run(s, poly, good) {
      WindowInjective(s, poly, top, mask, BitsOf(tail), BitsOf(good));
      BitsOfInjective(tail, good);
    }
  }

  lemma Fcs32Chain()
    ensures Shifts(0xffff_ffff, ETHERNET, 8) == 0x2dfd_1072 && Shifts(0x2dfd_1072, ETHERNET, 8) == 0xbe26_ed00
  {
  }

  lemma Fcs32ChainEnd()
    ensures Shifts(0xbe26_ed00, ETHERNET, 8) == 0x00be_26ed && Shifts(0x00be_26ed, ETHERNET, 8) == GOOD_FCS32
  {
  }

  lemma GoodFcs32()
    ensures Shifts(0xffff_ffff, ETHERNET, 32) == GOOD_FCS32
  {
    Fcs32Chain();
    Fcs32ChainEnd();
    ShiftsAdd(0xffff_ffff, ETHERNET, 8, 24);
    ShiftsAdd(0x2dfd_1072, ETHERNET, 8, 16);
    ShiftsAdd(0xbe26_ed00, ETHERNET, 8, 8);
    hide Shifts;
  }

  lemma Fcs16Chain()
    ensures Shifts(0xffff, FCS16, 8) == 0x0f87 && Shifts(0x0f87, FCS16, 8) == GOOD_FCS16
  {
  }

  lemma GoodFcs16()
    ensures Shifts(0xffff, FCS16, 16) == GOOD_FCS16
  {
    Fcs16Chain();
    ShiftsAdd(0xffff, FCS16, 8, 8);
    hide Shifts;
  }

  lemma Generators()
    ensures Generator(ETHERNET, 0x8000_0000, 0xffff_ffff)
    ensures Generator(FCS16, 0x8000, 0xffff) && Generator(VCRC, 0x8000, 0xffff)
  {
  }

  lemma AllWithin(w: Word)
    ensures Within(w, 0xffff_ffff)
  {
    SmallBits(w);
  }

  /** PPP, 32 bits: section C.3 of RFC 1662. */
  lemma PppFcs32Residue(fcs: Word, msg: seq<Byte>, tail: seq<Byte>)
    requires |tail| == 4
    ensures Run(fcs, ETHERNET, msg + tail) == GOOD_FCS32 <==>
              tail == LeBytes(Not(Run(fcs, ETHERNET, msg), 0xffff_ffff), 4)
  {
    Generators();
    AllWithin(fcs);
    hide Generator, Within, Shifts, Run;
    GoodFcs32();
    ResidueExactly(fcs, ETHERNET, 0x8000_0000, 0xffff_ffff, msg, tail);
  }

  /** PPP, 16 bits: section C.2 of RFC 1662. */
  lemma PppFcs16Residue(fcs: Word, msg: seq<Byte>, tail: seq<Byte>)
    requires |tail| == 2 && Within(fcs, 0xffff)
    ensures Run(fcs, FCS16, msg + tail) == GOOD_FCS16 <==>
              tail == LeBytes(Not(Run(fcs, FCS16, msg), 0xffff), 2)
  {
    Generators();
    hide Generator, Within, Shifts, Run;
    GoodFcs16();
    ResidueExactly(fcs, FCS16, 0x8000, 0xffff, msg, tail);
  }
}
