/** The byte loops of the library and the tables they use, proved against bit-at-a-time division. */
module CrcTables {
  import opened Crc
  import opened CrcBurst
  import opened CrcResidue
  import opened CrcMirror
  import opened ByteIndex

  function Widen(x: bv16): Word {
    x as Word
  }

  ghost predicate IsTable(t: seq<Word>, poly: Word) {
    |t| == 256 && forall b: Byte :: t[Index(b)] == Entry(b, poly)
  }

  ghost predicate IsTable16(t: seq<bv16>, poly: Word) {
    |t| == 256 && forall b: Byte :: Widen(t[Index(b)]) == Entry(b, poly)
  }

  ghost predicate IsTableLeft(t: seq<Word>) {
    |t| == 256 && forall b: Byte :: t[Index(b)] == EntryLeft(b)
  }

  const ALL: Word := 0xffff_ffff

  /** The Ethernet check: the register is complemented at both ends. */
  function Ethernet(crc: Word, buf: seq<Byte>): Word {
    Xor(Run(Xor(crc, ALL), ETHERNET, buf), ALL)
  }

  /** The 16-bit Infiniband check, of the low half of the register that it starts from. */
  function Vcrc(crc: Word, buf: seq<Byte>): Word {
    Xor(Run(Widen(Narrow(Xor(crc, 0xffff))), VCRC, buf), 0xffff)
  }

  // ---- 16-bit registers inside 32-bit words ----

  function Xor16(a: bv16, b: bv16): bv16 {
    a ^ b
  }

  function Half16(c: bv16): bv16 {
    c >> 1
  }

  predicate IsOdd16(c: bv16) {
    c & 1 == 1
  }

  /** One step of the 16-bit division. */
  function Shift16(c: bv16, poly: bv16): bv16 {
    if IsOdd16(c) then Xor16(poly, Half16(c)) else Half16(c)
  }

  lemma WidenBits(a: bv16, b: bv16)
    ensures (a ^ b) as Word == (a as Word) ^ (b as Word) && (a >> 1) as Word == (a as Word) >> 1
    ensures a & 1 == 1 <==> (a as Word) & 1 == 1
  {
  }

  lemma WidenXor(a: bv16, b: bv16)
    ensures Widen(Xor16(a, b)) == Xor(Widen(a), Widen(b))
  {
    WidenBits(a, b);
  }

  lemma WidenHalf(a: bv16)
    ensures Widen(Half16(a)) == Half(Widen(a)) && IsOdd(Widen(a)) == IsOdd16(a)
  {
    WidenBits(a, a);
  }

  lemma Shift16Widens(c: bv16, poly: bv16)
    ensures Widen(Shift16(c, poly)) == Shift(Widen(c), Widen(poly))
  {
    hide Xor16, Half16, IsOdd16, Xor, Half, IsOdd, Widen;
    WidenXor(poly, Half16(c));
    WidenHalf(c);
  }

  function Narrow(v: Word): bv16 {
    assert v & 0xffff < 0x1_0000;
    (v & 0xffff) as bv16
  }

  lemma NarrowBits(v: Word)
    requires v & 0xffff == v
    ensures v & 0xffff < 0x1_0000 && ((v & 0xffff) as bv16) as Word == v
  {
  }

  lemma NarrowWidens(v: Word)
    requires Within(v, 0xffff)
    ensures Widen(Narrow(v)) == v
  {
    NarrowBits(v);
  }

  lemma {:induction false} ShiftsWithin(c: Word, poly: Word, top: Word, mask: Word, k: nat)
    requires Generator(poly, top, mask) && Within(c, mask)
    ensures Within(Shifts(c, poly, k), mask)
    decreases k
  {
    hide Shift, Within, Generator;
    if k > 0 {
      ShiftTop(c, poly, top, mask);
      ShiftsWithin(Shift(c, poly), poly, top, mask, k - 1);
    }
  }

  lemma ExtendWithin(b: Byte)
    ensures Within(Extend(b), 0xffff)
  {
    assert (b as Word) & 0xffff == b as Word;
  }

  lemma EntryNarrows(b: Byte, poly: Word)
    requires Generator(poly, 0x8000, 0xffff)
    ensures Widen(Narrow(Entry(b, poly))) == Entry(b, poly)
  {
    ExtendWithin(b);
    hide Within, Generator, Shifts, Extend, Widen, Narrow;
    ShiftsWithin(Extend(b), poly, 0x8000, 0xffff, 8);
    NarrowWidens(Entry(b, poly));
  }

  lemma WidenByte(b: Byte)
    ensures Widen(b as bv16) == Extend(b) && Widen(0xd008) == VCRC
  {
  }

  function LowByte16(c: bv16, b: Byte): Byte {
    assert (c ^ (b as bv16)) & 0xff < 0x100;
    ((c ^ (b as bv16)) & 0xff) as Byte
  }

  lemma IndexBits(c: bv16, b: Byte)
    ensures (c ^ (b as bv16)) & 0xff < 0x100
    ensures ((((c as Word) ^ (b as Word)) & 0xff) as Byte) == ((c ^ (b as bv16)) & 0xff) as Byte
  {
  }

  lemma LowByte16Is(c: bv16, b: Byte)
    ensures LowByte16(c, b) == LowByte(Xor(Widen(c), Extend(b)))
  {
    IndexBits(c, b);
  }

  lemma FoldBits(c: bv16, e: bv16)
    ensures (e ^ (c >> 8)) as Word == (e as Word) ^ ((c as Word) >> 8)
  {
  }

  function Fold16(e: bv16, c: bv16): bv16 {
    e ^ (c >> 8)
  }

  lemma Fold16Is(c: bv16, e: bv16)
    ensures Widen(Fold16(e, c)) == Xor(Widen(e), HighPart(Widen(c)))
  {
    FoldBits(c, e);
  }

  /** One turn of the 16-bit byte loops, when `e` is the table entry. */
  lemma Feed16(c: bv16, b: Byte, e: bv16, poly: Word)
    requires Widen(e) == Entry(LowByte16(c, b), poly)
    ensures Widen(Fold16(e, c)) == Feed(Widen(c), poly, b)
  {
    hide Entry, Widen, Fold16, Xor, HighPart, LowByte, LowByte16, Extend;
    LowByte16Is(c, b);
    Fold16Is(c, e);
  }

  // ---- Building tables ----

  /** The inner loop of the builders: eight steps from a byte. */
  method EightSteps(n: Word, poly: Word) returns (c: Word)
    ensures c == Shifts(n, poly, 8)
  {
    hide Xor, Half, IsOdd;
    c := n;
    for k := 0 to 8
      invariant Shifts(c, poly, 8 - k) == Shifts(n, poly, 8)
    {
      if IsOdd(c) {
        c := Xor(poly, Half(c));
      } else {
        c := Half(c);
      }
    }
  }

  method EightSteps16(n: bv16, poly: bv16) returns (c: bv16)
    ensures Widen(c) == Shifts(Widen(n), Widen(poly), 8)
  {
    hide Shift, Widen;
    c := n;
    for k := 0 to 8
      invariant Shifts(Widen(c), Widen(poly), 8 - k) == Shifts(Widen(n), Widen(poly), 8)
    {
      Shift16Widens(c, poly);
      c := Shift16(c, poly);
    }
  }

  method EightStepsLeft(n: Word) returns (c: Word)
    ensures c == ShiftsLeft(n, 8)
  {
    hide Xor, Double, IsHigh;
    c := n;
    for k := 0 to 8
      invariant ShiftsLeft(c, 8 - k) == ShiftsLeft(n, 8)
    {
      if IsHigh(c) {
        c := Xor(Double(c), AAL5);
      } else {
        c := Double(c);
      }
    }
  }

  lemma OnlyByteAt(n: nat)
    requires n < 256
    ensures Index(ByteAt(n)) == n && forall b: Byte :: Index(b) == n ==> b == ByteAt(n)
  {
    IndexOf(n);
    hide Index, ByteAt;
    forall b: Byte | Index(b) == n
      ensures b == ByteAt(n)
    {
      IndexInjective(b, ByteAt(n));
    }
  }

  /** The tables of the library. */
  class Tables {
    const ethernet: array<Word>
    const fcs16: array<bv16>
    const aal5: array<Word>
    const vcrc: array<bv16>

    constructor ()
      ensures ethernet.Length == 256 && fcs16.Length == 256 && aal5.Length == 256 && vcrc.Length == 256
      ensures ethernet != aal5 && fcs16 != vcrc
    {
      ethernet := new Word[256](_ => 0);
      fcs16 := new bv16[256](_ => 0);
      aal5 := new Word[256](_ => 0);
      vcrc := new bv16[256](_ => 0);
    }

    /** dagcrc_make_ethernet_table_r. */
    method MakeEthernetTable()
      requires ethernet.Length == 256
      modifies ethernet
      ensures IsTable(ethernet[..], ETHERNET)
    {
      hide Extend, Shifts, Index, ByteAt;
      for n := 0 to 256
        invariant forall b: Byte :: Index(b) < n ==> ethernet[Index(b)] == Entry(b, ETHERNET)
      {
        ethernet[n] := EightSteps(Extend(ByteAt(n)), ETHERNET);
        OnlyByteAt(n);
      }
    }

    /** dagcrc_make_aal5_table. */
    method MakeAal5Table()
      requires aal5.Length == 256
      modifies aal5
      ensures IsTableLeft(aal5[..])
    {
      hide ToTop, ShiftsLeft, Index, ByteAt;
      for n := 0 to 256
        invariant forall b: Byte :: Index(b) < n ==> aal5[Index(b)] == EntryLeft(b)
      {
        aal5[n] := EightStepsLeft(ToTop(ByteAt(n)));
        OnlyByteAt(n);
      }
    }

    /** dagcrc_make_ppp_fcs16_table: 32-bit arithmetic, cut to 16 bits. */
    method MakeFcs16Table()
      requires fcs16.Length == 256
      modifies fcs16
      ensures IsTable16(fcs16[..], FCS16)
    {
      hide Extend, Shifts, Index, ByteAt, Widen, Narrow;
      for n := 0 to 256
        invariant forall b: Byte :: Index(b) < n ==> Widen(fcs16[Index(b)]) == Entry(b, FCS16)
      {
        var v := EightSteps(Extend(ByteAt(n)), FCS16);
        Generators();
        EntryNarrows(ByteAt(n), FCS16);
        fcs16[n] := Narrow(v);
        OnlyByteAt(n);
      }
    }

    /** dagcrc_make_infiniband_vcrc_table_r: 16-bit arithmetic. */
    method MakeVcrcTable()
      requires vcrc.Length == 256
      modifies vcrc
      ensures IsTable16(vcrc[..], VCRC)
    {
      hide Extend, Shifts, Index, ByteAt, Widen;
      for n := 0 to 256
        invariant forall b: Byte :: Index(b) < n ==> Widen(vcrc[Index(b)]) == Entry(b, VCRC)
      {
        WidenByte(ByteAt(n));
        vcrc[n] := EightSteps16(ByteAt(n) as bv16, 0xd008);
        OnlyByteAt(n);
      }
    }

    /** dagcrc_ethernet_crc32_r. */
    method EthernetCrc32(crc: Word, buf: seq<Byte>) returns (r: Word)
      requires IsTable(ethernet[..], ETHERNET)
      ensures r == Ethernet(crc, buf)
    {
      hide Entry, Xor, Extend, LowByte, HighPart;
      var c := Xor(crc, ALL);
      for i := 0 to |buf|
        invariant Run(c, ETHERNET, buf[i..]) == Run(Xor(crc, ALL), ETHERNET, buf)
      {
        var t := LowByte(Xor(c, Extend(buf[i])));
        assert ethernet[..][Index(t)] == Entry(t, ETHERNET);
        assert buf[i..][1..] == buf[i + 1..];
        c := Xor(ethernet[Index(t)], HighPart(c));
      }
      r := Xor(c, ALL);
    }

    /** dagcrc_ppp_fcs16. */
    method PppFcs16(fcs: bv16, cp: seq<Byte>) returns (r: bv16)
      requires IsTable16(fcs16[..], FCS16)
      ensures Widen(r) == Run(Widen(fcs), FCS16, cp)
    {
      hide Entry, Widen, LowByte16, Feed;
      r := fcs;
      for i := 0 to |cp|
        invariant Run(Widen(r), FCS16, cp[i..]) == Run(Widen(fcs), FCS16, cp)
      {
        var t := LowByte16(r, cp[i]);
        assert Widen(fcs16[..][Index(t)]) == Entry(t, FCS16);
        assert cp[i..][1..] == cp[i + 1..];
        Feed16(r, cp[i], fcs16[Index(t)], FCS16);
        r := Fold16(fcs16[Index(t)], r);
      }
    }

    /** dagcrc_infiniband_vcrc16_r: the register is complemented at both ends. */
    method InfinibandVcrc16(crc: Word, buf: seq<Byte>) returns (r: bv16)
      requires IsTable16(vcrc[..], VCRC)
      ensures Widen(r) == Vcrc(crc, buf)
    {
      assert Widen(0xffff) == 0xffff;
      hide Entry, Widen, LowByte16, Feed, Narrow;
      var c := Narrow(Xor(crc, 0xffff));
      ghost var start := c;
      for i := 0 to |buf|
        invariant Run(Widen(c), VCRC, buf[i..]) == Run(Widen(start), VCRC, buf)
      {
        var t := LowByte16(c, buf[i]);
        assert Widen(vcrc[..][Index(t)]) == Entry(t, VCRC);
        assert buf[i..][1..] == buf[i + 1..];
        Feed16(c, buf[i], vcrc[Index(t)], VCRC);
        c := Fold16(vcrc[Index(t)], c);
      }
      r := Xor16(c, 0xffff);
      WidenXor(c, 0xffff);
    }

    /** dagcrc_aal5_crc. */
    method Aal5Crc(crc: Word, data: seq<Byte>) returns (c: Word)
      requires IsTableLeft(aal5[..])
      ensures c == RunLeft(crc, data)
    {
      hide EntryLeft, Xor, Up, TopByte;
      c := crc;
      for j := 0 to |data|
        invariant RunLeft(c, data[j..]) == RunLeft(crc, data)
      {
        var i := TopByte(c) ^ data[j];
        assert aal5[..][Index(i)] == EntryLeft(i);
        assert data[j..][1..] == data[j + 1..];
        c := Xor(Up(c), aal5[Index(i)]);
      }
    }

    /** dagcrc_infiniband_icrc32. `at1` is what lies in memory from the first buffer on, of which
        `len1` bytes belong to it. The loop only switches buffers after it has read a byte, so that
        an empty first buffer is not skipped. */
    method InfinibandIcrc32(crc: Word, at1: seq<Byte>, len1: nat, buf2: seq<Byte>) returns (r: Word)
      requires IsTable(ethernet[..], ETHERNET)
      requires len1 <= |at1| && (len1 == 0 ==> |buf2| <= |at1|)
      ensures r == Ethernet(crc, if len1 == 0 then at1[..|buf2|] else at1[..len1] + buf2)
    {
      hide Entry, Xor, Extend, LowByte, HighPart, Index;
      ghost var all := if len1 == 0 then at1[..|buf2|] else at1[..len1] + buf2;
      var c := Xor(crc, ALL);
      var buf, k := at1, 0;
      for i := 0 to len1 + |buf2|
        invariant k <= |buf|
        invariant all[i..] <= buf[k..] || (0 < len1 && i < len1 && k == i && buf == at1)
        invariant Run(c, ETHERNET, all[i..]) == Run(Xor(crc, ALL), ETHERNET, all)
      {
        var t := LowByte(Xor(c, Extend(buf[k])));
        assert ethernet[..][Index(t)] == Entry(t, ETHERNET);
        c := Xor(ethernet[Index(t)], HighPart(c));
        k := k + 1;
        if i + 1 == len1 {
          buf, k := buf2, 0;
        }
      }
      r := Xor(c, ALL);
    }
  }

  // ---- How the checks hang together ----

  /** Checking in pieces: the complements at the joint cancel. */
  lemma EthernetConcat(crc: Word, a: seq<Byte>, b: seq<Byte>)
    ensures Ethernet(Ethernet(crc, a), b) == Ethernet(crc, a + b)
  {
    hide Xor, Run;
    var c := Run(Xor(crc, ALL), ETHERNET, a);
    RunConcat(Xor(crc, ALL), ETHERNET, a, b);
    XorCommutes(c, ALL);
    XorCommutes(Xor(ALL, c), ALL);
    XorCancels(ALL, c);
  }

  /** The Ethernet check of a message that is followed by its own check, low byte first, is the same for
      all messages and registers, and no other four bytes behind a message give it. */
  lemma EthernetResidue(crc: Word, msg: seq<Byte>, tail: seq<Byte>)
    requires |tail| == 4
    ensures Ethernet(crc, msg + tail) == 0x2144_df1c <==> tail == LeBytes(Ethernet(crc, msg), 4)
  {
    var s := Run(Xor(crc, ALL), ETHERNET, msg + tail);
    PppFcs32Residue(Xor(crc, ALL), msg, tail);
    assert Xor(GOOD_FCS32, ALL) == 0x2144_df1c;
    hide Run, Xor, LeBytes;
    XorCommutes(s, ALL);
    XorCommutes(GOOD_FCS32, ALL);
    XorCancels(ALL, s);
    XorCancels(ALL, GOOD_FCS32);
  }

  lemma NarrowSmall(v: Word)
    ensures Within(Widen(Narrow(v)), 0xffff)
  {
    Fits16((v & 0xffff) as bv16);
  }

  lemma Fits16(x: bv16)
    ensures (x as Word) & 0xffff == x as Word
  {
  }

  /** What the 16-bit register starts from. */
  lemma VcrcStart(crc: Word)
    ensures Within(Widen(Narrow(Xor(crc, 0xffff))), 0xffff)
    ensures Within(crc, 0xffff) ==> Widen(Narrow(Xor(crc, 0xffff))) == Xor(crc, 0xffff)
  {
    hide Narrow, Widen, Within, Xor;
    NarrowSmall(Xor(crc, 0xffff));
    if Within(crc, 0xffff) {
      MaskWithin(0x8000, 0xffff);
      WithinXor(crc, 0xffff, 0xffff);
      NarrowWidens(Xor(crc, 0xffff));
    }
  }

  lemma VcrcWithin(crc: Word, buf: seq<Byte>)
    ensures Within(Vcrc(crc, buf), 0xffff)
  {
    hide Within, Generator, Run, Xor, Widen, Narrow;
    Generators();
    VcrcStart(crc);
    RunWithin(Widen(Narrow(Xor(crc, 0xffff))), VCRC, 0x8000, 0xffff, buf);
    MaskWithin(0x8000, 0xffff);
    WithinXor(Run(Widen(Narrow(Xor(crc, 0xffff))), VCRC, buf), 0xffff, 0xffff);
  }

  /** The 16-bit check in pieces. */
  lemma VcrcConcat(crc: Word, a: seq<Byte>, b: seq<Byte>)
    ensures Vcrc(Vcrc(crc, a), b) == Vcrc(crc, a + b)
  {
    hide Xor, Run, Widen, Narrow, Within;
    var start := Widen(Narrow(Xor(crc, 0xffff)));
    var c := Run(start, VCRC, a);
    VcrcWithin(crc, a);
    VcrcStart(Vcrc(crc, a));
    RunConcat(start, VCRC, a, b);
    XorCommutes(c, 0xffff);
    XorCommutes(Xor(0xffff, c), 0xffff);
    XorCancels(0xffff, c);
  }

  lemma VcrcChain()
    ensures Shifts(0xffff, VCRC, 8) == 0x099f && Shifts(0x099f, VCRC, 8) == 0x556f
  {
  }

  lemma GoodVcrc()
    ensures Shifts(0xffff, VCRC, 16) == 0x556f && Xor(0x556f, 0xffff) == 0xaa90
  {
    VcrcChain();
    ShiftsAdd(0xffff, VCRC, 8, 8);
    hide Shifts;
  }

  /** And with its own check behind it. */
  lemma VcrcResidue(crc: Word, msg: seq<Byte>, tail: seq<Byte>)
    requires |tail| == 2
    ensures Vcrc(crc, msg + tail) == 0xaa90 <==> tail == LeBytes(Vcrc(crc, msg), 2)
  {
    hide Run, Xor, LeBytes, Generator, Within, Shifts, Widen, Narrow;
    var start := Widen(Narrow(Xor(crc, 0xffff)));
    Generators();
    VcrcStart(crc);
    GoodVcrc();
    ResidueExactly(start, VCRC, 0x8000, 0xffff, msg, tail);
    var s := Run(start, VCRC, msg + tail);
    XorCommutes(s, 0xffff);
    XorCommutes(0x556f, 0xffff);
    XorCancels(0xffff, s);
    XorCancels(0xffff, 0x556f);
  }

  /** The PPP check is the Ethernet check without its complements. */
  lemma PppIsEthernet(fcs: Word, buf: seq<Byte>)
    ensures Run(fcs, ETHERNET, buf) == Xor(Ethernet(Xor(fcs, ALL), buf), ALL)
  {
    hide Xor, Run;
    var r := Run(fcs, ETHERNET, buf);
    XorCommutes(fcs, ALL);
    XorCommutes(Xor(ALL, fcs), ALL);
    XorCancels(ALL, fcs);
    XorCommutes(r, ALL);
    XorCommutes(Xor(ALL, r), ALL);
    XorCancels(ALL, r);
  }

  /** Two equal-length messages that differ within 32 consecutive bits have different Ethernet checks. */
  lemma EthernetBurst(crc: Word, a: seq<Byte>, b: seq<Byte>, i: nat, k: nat)
    requires |a| == |b| && i + k <= 8 * |a| && k <= 32
    requires BitsOf(a)[..i] == BitsOf(b)[..i] && BitsOf(a)[i + k..] == BitsOf(b)[i + k..] && a != b
    ensures Ethernet(crc, a) != Ethernet(crc, b)
  {
    Generators();
    AllWithin(Xor(crc, ALL));
    var x, y := Run(Xor(crc, ALL), ETHERNET, a), Run(Xor(crc, ALL), ETHERNET, b);
    ByteBurstDetected(Xor(crc, ALL), ETHERNET, 0x8000_0000, 0xffff_ffff, a, b, i, k);
    hide Xor, Run, Within, Generator;
    XorCommutes(x, ALL);
    XorCommutes(y, ALL);
    XorCancels(ALL, x);
    XorCancels(ALL, y);
  }

  /** What dagcrc_infiniband_icrc32 returns. */
  function Icrc(crc: Word, at1: seq<Byte>, len1: nat, buf2: seq<Byte>): Word
    requires len1 <= |at1| && (len1 == 0 ==> |buf2| <= |at1|)
  {
    Ethernet(crc, if len1 == 0 then at1[..|buf2|] else at1[..len1] + buf2)
  }

  /** The two-buffer check is the Ethernet check of both buffers in a row, whatever they and the
      memory behind the first pointer hold, exactly when the first is not empty or the second is. */
  lemma IcrcIsEthernet(len1: nat, len2: nat)
    ensures (forall crc: Word, at1: seq<Byte>, buf2: seq<Byte> ::
               len1 <= |at1| && (len1 == 0 ==> |buf2| <= |at1|) && |buf2| == len2 ==>
                 Icrc(crc, at1, len1, buf2) == Ethernet(crc, at1[..len1] + buf2))
            <==> len1 >= 1 || len2 == 0
  {
    hide Ethernet;
    if len1 == 0 && len2 > 0 {
      var at1, buf2 := seq(len2, i => 0 as Byte), [1 as Byte] + seq(len2 - 1, i => 0 as Byte);
      assert at1[..0] + buf2 == buf2 && at1[..len2] == at1;
      FirstByteDiffers(at1, buf2);
      assert Icrc(0, at1, 0, buf2) != Ethernet(0, at1[..0] + buf2);
    } else {
      forall crc: Word, at1: seq<Byte>, buf2: seq<Byte> |
        len1 <= |at1| && (len1 == 0 ==> |buf2| <= |at1|) && |buf2| == len2
        ensures Icrc(crc, at1, len1, buf2) == Ethernet(crc, at1[..len1] + buf2)
      {
        if len1 == 0 {
          assert at1[..0] + buf2 == at1[..|buf2|];
        }
      }
    }
  }

  lemma FirstByteDiffers(a: seq<Byte>, b: seq<Byte>)
    requires |a| == |b| > 0 && a[0] != b[0] && a[1..] == b[1..]
    ensures Ethernet(0, a) != Ethernet(0, b)
  {
    assert BitsOf(a)[8..] == BitsOf(a[1..]) && BitsOf(b)[8..] == BitsOf(b[1..]);
    EthernetBurst(0, a, b, 0, 8);
  }
}
