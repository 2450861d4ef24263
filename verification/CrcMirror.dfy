/** The check of ATM AAL5 shifts the other way: highest bit first. It is the mirror image of the
    32-bit check of PPP. */
module CrcMirror {
  import opened Crc
  import opened CrcResidue

  const AAL5: Word := 0x04c1_1db7
  const CRC_PASS: Word := 0xc704_dd7b

  function Reverse(w: Word): Word {
    var a := ((w >> 1) & 0x5555_5555) | ((w & 0x5555_5555) << 1);
    var b := ((a >> 2) & 0x3333_3333) | ((a & 0x3333_3333) << 2);
    var c := ((b >> 4) & 0x0f0f_0f0f) | ((b & 0x0f0f_0f0f) << 4);
    var d := ((c >> 8) & 0x00ff_00ff) | ((c & 0x00ff_00ff) << 8);
    (d >> 16) | (d << 16)
  }

  function ReverseByte(x: Byte): Byte {
    var a := ((x >> 1) & 0x55) | ((x & 0x55) << 1);
    var b := ((a >> 2) & 0x33) | ((a & 0x33) << 2);
    (b >> 4) | (b << 4)
  }

  function ReverseAll(msg: seq<Byte>): (r: seq<Byte>)
    ensures |r| == |msg|
  {
    seq(|msg|, i requires 0 <= i < |msg| => ReverseByte(msg[i]))
  }

  // ---- Division with the highest bit first ----

  predicate IsHigh(c: Word) {
    c & 0x8000_0000 != 0
  }

  function Double(c: Word): Word {
    c << 1
  }

  function ShiftLeft(c: Word): Word {
    if IsHigh(c) then Xor(Double(c), AAL5) else Double(c)
  }

  function ShiftsLeft(c: Word, k: nat): Word
    decreases k
  {
    if k == 0 then c else ShiftsLeft(ShiftLeft(c), k - 1)
  }

  function High(bit: bool): Word {
    if bit then 0x8000_0000 else 0
  }

  function DivideLeft(c: Word, bits: seq<bool>): Word
    decreases |bits|
  {
    if bits == [] then c else DivideLeft(ShiftLeft(Xor(c, High(bits[0]))), bits[1..])
  }

  function BitsHighFirst(b: Byte): (r: seq<bool>)
    ensures |r| == 8
  {
    [b & 0x80 != 0, b & 0x40 != 0, b & 0x20 != 0, b & 0x10 != 0, b & 8 != 0, b & 4 != 0, b & 2 != 0, b & 1 != 0]
  }

  function BitsOfHighFirst(msg: seq<Byte>): seq<bool> {
    if msg == [] then [] else BitsHighFirst(msg[0]) + BitsOfHighFirst(msg[1..])
  }

  // ---- The byte loop ----

  function ToTop(b: Byte): Word {
    (b as Word) << 24
  }

  function TopByte(c: Word): Byte {
    (c >> 24) as Byte
  }

  function EntryLeft(b: Byte): Word {
    ShiftsLeft(ToTop(b), 8)
  }

  function Up(c: Word): Word {
    c << 8
  }

  function FeedLeft(c: Word, b: Byte): Word {
    Xor(Up(c), EntryLeft(TopByte(c) ^ b))
  }

  function RunLeft(c: Word, msg: seq<Byte>): Word
    decreases |msg|
  {
    if msg == [] then c else RunLeft(FeedLeft(c, msg[0]), msg[1..])
  }

  // ---- Mirror images ----

  lemma ReverseFacts(x: Word)
    ensures Reverse(Reverse(x)) == x
    ensures Reverse(x) & 1 == 1 <==> x & 0x8000_0000 != 0
  {
  }

  lemma ReverseHigh(x: Word)
    ensures IsOdd(Reverse(x)) == IsHigh(x)
  {
    ReverseFacts(x);
    hide Reverse;
  }

  lemma ReverseShift(x: Word)
    ensures Reverse(x << 1) == Reverse(x) >> 1
  {
  }

  lemma ReverseDouble(x: Word)
    ensures Reverse(Double(x)) == Half(Reverse(x))
  {
    ReverseShift(x);
    hide Reverse;
  }

  lemma ReverseXorBits(x: Word, y: Word)
    ensures Reverse(x ^ y) == Reverse(x) ^ Reverse(y)
  {
  }

  lemma ReverseXor(x: Word, y: Word)
    ensures Reverse(Xor(x, y)) == Xor(Reverse(x), Reverse(y))
  {
    ReverseXorBits(x, y);
    hide Reverse;
  }

  lemma ReverseConstants()
    ensures Reverse(AAL5) == ETHERNET && Reverse(CRC_PASS) == GOOD_FCS32 && Reverse(0xffff_ffff) == 0xffff_ffff
    ensures Reverse(0x8000_0000) == 1 && Reverse(0) == 0
  {
  }

  lemma ReverseUpBits(c: Word)
    ensures Reverse(c << 8) == Reverse(c) >> 8
  {
  }

  lemma ReverseUp(c: Word)
    ensures Reverse(Up(c)) == HighPart(Reverse(c))
  {
    ReverseUpBits(c);
    hide Reverse;
  }

  lemma ReverseToTop(b: Byte)
    ensures Reverse(ToTop(b)) == Extend(ReverseByte(b))
  {
  }

  lemma ReverseIndexBits(c: Word, b: Byte)
    ensures (Reverse(c) ^ (ReverseByte(b) as Word)) & 0xff == ReverseByte(((c >> 24) as Byte) ^ b) as Word
  {
  }

  lemma ReverseIndex(c: Word, b: Byte)
    ensures LowByte(Xor(Reverse(c), Extend(ReverseByte(b)))) == ReverseByte(TopByte(c) ^ b)
  {
    ReverseIndexBits(c, b);
    hide Reverse, ReverseByte;
  }

  /** One step of either division is the mirror image of the other. */
  lemma ShiftMirror(c: Word)
    ensures Reverse(ShiftLeft(c)) == Shift(Reverse(c), ETHERNET)
  {
    ReverseConstants();
    hide Reverse, IsHigh, IsOdd, Double, Half, Xor;
    ReverseHigh(c);
    ReverseDouble(c);
    ReverseXor(Double(c), AAL5);
    XorCommutes(Half(Reverse(c)), ETHERNET);
  }

  lemma {:induction false} ShiftsMirror(c: Word, k: nat)
    ensures Reverse(ShiftsLeft(c, k)) == Shifts(Reverse(c), ETHERNET, k)
    decreases k
  {
    hide Reverse, ShiftLeft, Shift;
    if k > 0 {
      ShiftMirror(c);
      ShiftsMirror(ShiftLeft(c), k - 1);
    }
  }

  lemma FeedMirror(c: Word, b: Byte)
    ensures Reverse(FeedLeft(c, b)) == Feed(Reverse(c), ETHERNET, ReverseByte(b))
  {
    hide Reverse, ReverseByte, Xor, Up, HighPart, LowByte, Extend, ToTop, TopByte, ShiftsLeft, Shifts;
    var i := TopByte(c) ^ b;
    ReverseIndex(c, b);
    ReverseUp(c);
    ReverseXor(Up(c), EntryLeft(i));
    ShiftsMirror(ToTop(i), 8);
    ReverseToTop(i);
    XorCommutes(HighPart(Reverse(c)), Reverse(EntryLeft(i)));
  }

  /** The AAL5 check of a message is the mirror image of the PPP check of the message with the bits
      of every byte reversed, from the reversed register on. */
  lemma {:induction false} Mirror(c: Word, msg: seq<Byte>)
    ensures Reverse(RunLeft(c, msg)) == Run(Reverse(c), ETHERNET, ReverseAll(msg))
    decreases |msg|
  {
    hide Reverse, ReverseByte, FeedLeft, Feed;
    if msg != [] {
      FeedMirror(c, msg[0]);
      Mirror(FeedLeft(c, msg[0]), msg[1..]);
      assert ReverseAll(msg)[1..] == ReverseAll(msg[1..]);
    }
  }

  lemma ReversedHalves(b: Byte)
    ensures var w := ReverseByte(b) as Word;
            && (w & 1 == 1) == (b & 0x80 != 0) && ((w >> 1) & 1 == 1) == (b & 0x40 != 0)
            && (((w >> 1) >> 1) & 1 == 1) == (b & 0x20 != 0) && ((((w >> 1) >> 1) >> 1) & 1 == 1) == (b & 0x10 != 0)
            && (((((w >> 1) >> 1) >> 1) >> 1) & 1 == 1) == (b & 8 != 0)
            && ((((((w >> 1) >> 1) >> 1) >> 1) >> 1) & 1 == 1) == (b & 4 != 0)
            && (((((((w >> 1) >> 1) >> 1) >> 1) >> 1) >> 1) & 1 == 1) == (b & 2 != 0)
            && ((((((((w >> 1) >> 1) >> 1) >> 1) >> 1) >> 1) >> 1) & 1 == 1) == (b & 1 != 0)
  {
  }

  lemma ReversedOdds(b: Byte)
    ensures var h0 := Extend(ReverseByte(b)); var h1 := Half(h0); var h2 := Half(h1); var h3 := Half(h2);
            var h4 := Half(h3); var h5 := Half(h4); var h6 := Half(h5); var h7 := Half(h6);
            && IsOdd(h0) == (b & 0x80 != 0) && IsOdd(h1) == (b & 0x40 != 0)
            && IsOdd(h2) == (b & 0x20 != 0) && IsOdd(h3) == (b & 0x10 != 0)
            && IsOdd(h4) == (b & 8 != 0) && IsOdd(h5) == (b & 4 != 0)
            && IsOdd(h6) == (b & 2 != 0) && IsOdd(h7) == (b & 1 != 0)
  {
    ReversedHalves(b);
    hide ReverseByte;
  }

  lemma ReversedByteBits(b: Byte)
    ensures Bits(Extend(ReverseByte(b)), 8) == BitsHighFirst(b)
  {
    ReversedOdds(b);
    hide ReverseByte, Extend, IsOdd, Half, Bits;
    EightBits(Extend(ReverseByte(b)));
  }

  lemma {:induction false} ReversedBits(msg: seq<Byte>)
    ensures BitsOf(ReverseAll(msg)) == BitsOfHighFirst(msg)
    decreases |msg|
  {
    hide Bits, Extend, ReverseByte, BitsHighFirst;
    if msg != [] {
      ReversedByteBits(msg[0]);
      ReversedBits(msg[1..]);
      assert ReverseAll(msg)[1..] == ReverseAll(msg[1..]);
    }
  }

  lemma ReverseEntering(bit: bool)
    ensures Reverse(High(bit)) == Low(bit)
  {
    ReverseConstants();
    hide Reverse;
  }

  lemma {:induction false} DivisionMirror(c: Word, bits: seq<bool>)
    ensures Reverse(DivideLeft(c, bits)) == Divide(Reverse(c), ETHERNET, bits)
    decreases |bits|
  {
    hide Reverse, ShiftLeft, Shift, Xor, High, Low;
    if bits != [] {
      ReverseXor(c, High(bits[0]));
      ReverseEntering(bits[0]);
      ShiftMirror(Xor(c, High(bits[0])));
      DivisionMirror(ShiftLeft(Xor(c, High(bits[0]))), bits[1..]);
    }
  }

  /** The byte loop over the AAL5 table is division with the highest bit of every byte first. */
  lemma Aal5IsDivision(c: Word, msg: seq<Byte>)
    ensures RunLeft(c, msg) == DivideLeft(c, BitsOfHighFirst(msg))
  {
    Mirror(c, msg);
    RunIsDivision(Reverse(c), ETHERNET, ReverseAll(msg));
    ReversedBits(msg);
    DivisionMirror(c, BitsOfHighFirst(msg));
    ReverseFacts(RunLeft(c, msg));
    ReverseFacts(DivideLeft(c, BitsOfHighFirst(msg)));
    hide Reverse;
  }

  /** The bytes of a word, highest first. */
  function BeBytes(w: Word): (r: seq<Byte>)
    ensures |r| == 4
  {
    [(w >> 24) as Byte, ((w >> 16) & 0xff) as Byte, ((w >> 8) & 0xff) as Byte, (w & 0xff) as Byte]
  }

  lemma ReversedBytesBits(w: Word)
    ensures var r := Reverse(w);
            && ReverseByte((w >> 24) as Byte) == (r & 0xff) as Byte
            && ReverseByte(((w >> 16) & 0xff) as Byte) == ((r >> 8) & 0xff) as Byte
            && ReverseByte(((w >> 8) & 0xff) as Byte) == (((r >> 8) >> 8) & 0xff) as Byte
            && ReverseByte((w & 0xff) as Byte) == ((((r >> 8) >> 8) >> 8) & 0xff) as Byte
  {
  }

  lemma ReversedLowBytes(w: Word)
    ensures var r := Reverse(w);
            && ReverseByte((w >> 24) as Byte) == LowByte(r)
            && ReverseByte(((w >> 16) & 0xff) as Byte) == LowByte(HighPart(r))
            && ReverseByte(((w >> 8) & 0xff) as Byte) == LowByte(HighPart(HighPart(r)))
            && ReverseByte((w & 0xff) as Byte) == LowByte(HighPart(HighPart(HighPart(r))))
  {
    ReversedBytesBits(w);
    hide Reverse, ReverseByte;
  }

  lemma ReversedBytes(w: Word)
    ensures ReverseAll(BeBytes(w)) == LeBytes(Reverse(w), 4)
  {
    ReversedLowBytes(w);
    hide Reverse, ReverseByte, LowByte, HighPart;
  }

  lemma ReverseInjective(a: Word, b: Word)
    requires Reverse(a) == Reverse(b)
    ensures a == b
  {
    ReverseFacts(a);
    ReverseFacts(b);
    hide Reverse;
  }

  lemma ReverseByteTwice(b: Byte)
    ensures ReverseByte(ReverseByte(b)) == b
  {
  }

  lemma ReverseAllInjective(a: seq<Byte>, b: seq<Byte>)
    requires ReverseAll(a) == ReverseAll(b)
    ensures a == b
  {
    hide ReverseByte;
    forall i | 0 <= i < |a|
      ensures a[i] == b[i]
    {
      ReverseByteTwice(a[i]);
      ReverseByteTwice(b[i]);
      assert ReverseAll(a)[i] == ReverseAll(b)[i];
    }
  }

  /** AAL5: the message followed by four bytes passes exactly when they are its complemented check,
      highest byte first. */
  lemma Aal5Residue(c: Word, msg: seq<Byte>, tail: seq<Byte>)
    requires |tail| == 4
    ensures RunLeft(c, msg + tail) == CRC_PASS <==> tail == BeBytes(Not(RunLeft(c, msg), 0xffff_ffff))
  {
    var s := RunLeft(c, msg);
    hide Reverse, ReverseByte, Run, RunLeft, LeBytes, BeBytes, Xor;
    Mirror(c, msg);
    Mirror(c, msg + tail);
    assert ReverseAll(msg + tail) == ReverseAll(msg) + ReverseAll(tail);
    PppFcs32Residue(Reverse(c), ReverseAll(msg), ReverseAll(tail));
    ReverseConstants();
    ReverseXor(s, 0xffff_ffff);
    ReversedBytes(Not(s, 0xffff_ffff));
    if RunLeft(c, msg + tail) == CRC_PASS {
      ReverseAllInjective(tail, BeBytes(Not(s, 0xffff_ffff)));
    } else if tail == BeBytes(Not(s, 0xffff_ffff)) {
      ReverseInjective(RunLeft(c, msg + tail), CRC_PASS);
    }
  }
}
