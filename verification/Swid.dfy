/** The software id (SWID) that is kept in the last bytes of the last sector of an image. */
module Swid {
  import opened Crc
  import opened CrcResidue
  import opened Ring
  import opened Wrappers
  import opened Flash
  import opened Erase

  const SERIAL_SIZE := 128
  const HEADER_SIZE := 8
  const PACKAGE_SIZE := 136
  const MAGIC: Word := 0xabcd

  /** The cards that have a SWID. */
  predicate Supported(deviceCode: nat) {
    deviceCode == 0x430e || deviceCode == 0x378e || deviceCode == 0x3707 || deviceCode == 0x3747 || deviceCode == 0x7100
  }

  // ---- Words in memory, lowest byte first ----

  function FromBytes(b0: Crc.Byte, b1: Crc.Byte, b2: Crc.Byte, b3: Crc.Byte): Word {
    (b0 as Word) | ((b1 as Word) << 8) | ((b2 as Word) << 16) | ((b3 as Word) << 24)
  }

  function WordAt(s: seq<Crc.Byte>): Word
    requires |s| >= 4
  {
    FromBytes(s[0], s[1], s[2], s[3])
  }

  lemma FourBytes(w: Word)
    ensures (w & 0xff) | (((w >> 8) & 0xff) << 8) | ((((w >> 8) >> 8) & 0xff) << 16)
            | (((((w >> 8) >> 8) >> 8) & 0xff) << 24)
         == w
  {
  }

  lemma LowByteBack(w: Word)
    ensures LowByte(w) as Word == w & 0xff
  {
  }

  lemma FourLeBytes(w: Word)
    ensures var w1 := HighPart(w); var w2 := HighPart(w1); var w3 := HighPart(w2);
            LeBytes(w, 4) == [LowByte(w), LowByte(w1), LowByte(w2), LowByte(w3)]
  {
    hide LowByte, HighPart;
    var w1 := HighPart(w);
    var w2 := HighPart(w1);
    var w3 := HighPart(w2);
    assert LeBytes(w3, 1) == [LowByte(w3)] + LeBytes(HighPart(w3), 0);
    assert LeBytes(w2, 2) == [LowByte(w2)] + LeBytes(w3, 1);
    assert LeBytes(w1, 3) == [LowByte(w1)] + LeBytes(w2, 2);
  }

  lemma WordBack(w: Word)
    ensures |LeBytes(w, 4)| == 4 && WordAt(LeBytes(w, 4)) == w
  {
    hide LeBytes;
    FourLeBytes(w);
    var w1 := HighPart(w);
    var w2 := HighPart(w1);
    LowByteBack(w);
    LowByteBack(w1);
    LowByteBack(w2);
    LowByteBack(HighPart(w2));
    FourBytes(w);
  }

  // ---- What is stored ----

  /** The package of a key and a SWID: marker, key, then 128 bytes that the SWID begins. */
  function Package(key: Word, swid: seq<Crc.Byte>): (r: seq<Crc.Byte>)
    ensures |r| == PACKAGE_SIZE
  {
    LeBytes(MAGIC, 4) + LeBytes(key, 4) + swid[..Kept(swid)] + Zeroes(SERIAL_SIZE - Kept(swid))
  }

  /** How much of a SWID is kept. */
  function Kept(swid: seq<Crc.Byte>): (n: nat)
    ensures n <= |swid| && n <= SERIAL_SIZE
  {
    if |swid| < SERIAL_SIZE then |swid| else SERIAL_SIZE
  }

  function Zeroes(n: nat): (r: seq<Crc.Byte>)
    ensures |r| == n
  {
    seq(n, _ => 0)
  }

  /** A sector with another package in its last bytes. */
  function WithPackage(s: seq<Crc.Byte>, package: seq<Crc.Byte>): (r: seq<Crc.Byte>)
    requires |package| == PACKAGE_SIZE <= |s|
    ensures |r| == |s|
  {
    s[..|s| - PACKAGE_SIZE] + package
  }

  /** An image ends at `top`. */
  predicate HasSwid(cells: seq<Crc.Byte>, top: nat)
    requires PACKAGE_SIZE <= top <= |cells|
  {
    WordAt(cells[top - PACKAGE_SIZE..top - PACKAGE_SIZE + 4]) == 0xabcd
  }

  function StoredKey(cells: seq<Crc.Byte>, top: nat): Word
    requires PACKAGE_SIZE <= top <= |cells|
  {
    WordAt(cells[top - SERIAL_SIZE - 4..top - SERIAL_SIZE])
  }

  lemma PackageParts(key: Word, swid: seq<Crc.Byte>)
    ensures var package := Package(key, swid);
            && package[0..4] == LeBytes(MAGIC, 4)
            && package[4..8] == LeBytes(key, 4)
            && package[8..8 + Kept(swid)] == swid[..Kept(swid)]
            && package[8 + Kept(swid)..PACKAGE_SIZE] == Zeroes(SERIAL_SIZE - Kept(swid))
  {
    hide LeBytes, Zeroes;
  }

  lemma PackageRead(cells: seq<Crc.Byte>, top: nat, key: Word, swid: seq<Crc.Byte>)
    requires PACKAGE_SIZE <= top <= |cells| && cells[top - PACKAGE_SIZE..top] == Package(key, swid)
    ensures HasSwid(cells, top) && StoredKey(cells, top) == key
    ensures cells[top - SERIAL_SIZE..top] == swid[..Kept(swid)] + Zeroes(SERIAL_SIZE - Kept(swid))
  {
    var at, n := top - PACKAGE_SIZE, Kept(swid);
    hide LeBytes, WordAt, Package, Zeroes, Kept;
    WordBack(MAGIC);
    WordBack(key);
    PackageParts(key, swid);
    SliceOfSlice(cells, at, top, 0, 4);
    SliceOfSlice(cells, at, top, 4, 8);
    SliceOfSlice(cells, at, top, 8, 8 + n);
    SliceOfSlice(cells, at, top, 8 + n, PACKAGE_SIZE);
    var mid := top - SERIAL_SIZE + n;
    assert cells[top - SERIAL_SIZE..top] == cells[top - SERIAL_SIZE..mid] + cells[mid..top];
  }

  /** The package is found again: its key, its SWID up to 128 bytes, and the bytes before it. */
  lemma PackageBack(cells: seq<Crc.Byte>, top: nat, s: seq<Crc.Byte>, key: Word, swid: seq<Crc.Byte>)
    requires PACKAGE_SIZE <= |s| <= top <= |cells|
    requires cells[top - |s|..top] == WithPackage(s, Package(key, swid))
    ensures HasSwid(cells, top) && StoredKey(cells, top) == key
    ensures cells[top - SERIAL_SIZE..top] == swid[..Kept(swid)] + Zeroes(SERIAL_SIZE - Kept(swid))
    ensures cells[top - |s|..top - PACKAGE_SIZE] == s[..|s| - PACKAGE_SIZE]
  {
    hide Package, HasSwid, StoredKey, Zeroes, Kept;
    SliceOfSlice(cells, top - |s|, top, |s| - PACKAGE_SIZE, |s|);
    SliceOfSlice(cells, top - |s|, top, 0, |s| - PACKAGE_SIZE);
    PackageRead(cells, top, key, swid);
  }

  /** A cleared package is none. */
  lemma ClearedHasNone(cells: seq<Crc.Byte>, top: nat, s: seq<Crc.Byte>)
    requires PACKAGE_SIZE <= |s| <= top <= |cells|
    requires cells[top - |s|..top] == WithPackage(s, Zeroes(PACKAGE_SIZE))
    ensures !HasSwid(cells, top)
  {
    SliceOfSlice(cells, top - |s|, top, |s| - PACKAGE_SIZE, |s| - PACKAGE_SIZE + 4);
    assert WithPackage(s, Zeroes(PACKAGE_SIZE))[|s| - PACKAGE_SIZE..|s| - PACKAGE_SIZE + 4] == [0, 0, 0, 0];
  }

  // ---- Buffers ----

  lemma ReplacedNext(was: seq<Crc.Byte>, at: nat, data: seq<Crc.Byte>, v: Crc.Byte)
    requires at + |data| < |was|
    ensures Replaced(was, at, data)[at + |data| := v] == Replaced(was, at, data + [v])
  {
  }

  /** memcpy. */
  method Copy(a: array<Crc.Byte>, at: nat, data: seq<Crc.Byte>)
    requires at + |data| <= a.Length
    modifies a
    ensures a[..] == Replaced(old(a[..]), at, data)
  {
    ghost var was := a[..];
    assert Replaced(was, at, data[..0]) == was;
    hide Replaced;
    for i := 0 to |data|
      invariant a[..] == Replaced(was, at, data[..i])
    {
      ReplacedNext(was, at, data[..i], data[i]);
      assert data[..i] + [data[i]] == data[..i + 1];
      ghost var before := a[..];
      a[at + i] := data[i];
      assert a[..] == before[at + i := data[i]];
    }
    assert data[..|data|] == data;
  }

  /** What reads from `saddr` on deliver. */
  function Seen(c: Chip, saddr: nat, n: nat): (r: seq<Crc.Byte>)
    ensures |r| == n
  {
    seq(n, i requires 0 <= i => ReadOf(c, saddr + i))
  }

  lemma SeenNext(c: Chip, saddr: nat, n: nat)
    ensures Seen(c, saddr, n + 1) == Seen(c, saddr, n) + [ReadOf(c, saddr + n)]
  {
    hide ReadOf;
  }

  lemma SeenCells(c: Chip, saddr: nat, n: nat)
    requires c.mode.ReadArray? && saddr + n <= |c.cells|
    ensures Seen(c, saddr, n) == c.cells[saddr..saddr + n]
  {
    forall i | 0 <= i < n
      ensures Seen(c, saddr, n)[i] == c.cells[saddr..saddr + n][i]
    {
      assert saddr + i < |c.cells|;
      assert Seen(c, saddr, n)[i] == ReadOf(c, saddr + i);
    }
  }

  lemma ReplacedNothing(was: seq<Crc.Byte>, c: Chip, saddr: nat)
    ensures Replaced(was, 0, Seen(c, saddr, 0)) == was
  {
  }

  /** `*bp = val`. */
  method SetOne(a: array<Crc.Byte>, i: nat, v: Crc.Byte)
    requires i < a.Length
    modifies a
    ensures a[..] == old(a[..])[i := v]
  {
    a[i] := v;
  }

  /** dagrom_read, for controllers before version 2. */
  method DagromRead(rp: Rom, bp: array<Crc.Byte>, saddr: nat, eaddr: nat)
    requires saddr <= eaddr <= saddr + bp.Length
    modifies bp
    ensures bp[..] == Replaced(old(bp[..]), 0, Seen(rp.chip, saddr, eaddr - saddr))
  {
    ghost var was, c := bp[..], rp.chip;
    ReplacedNothing(was, c, saddr);
    hide Replaced, Seen, ReadOf;
    for i := 0 to eaddr - saddr
      invariant rp.chip == c && bp[..] == Replaced(was, 0, Seen(c, saddr, i))
    {
      var v := rp.RomRead(saddr + i);
      ReplacedNext(was, 0, Seen(c, saddr, i), v);
      SeenNext(c, saddr, i);
      SetOne(bp, i, v);
    }
  }

  // ---- Writing a sector back ----

  lemma AllOnes(b: Crc.Byte)
    ensures b == 0xff <==> forall v: Crc.Byte :: And(b, v) == v
  {
    if forall v: Crc.Byte :: And(b, v) == v {
      assert And(b, 0xff) == 0xff;
    }
  }

  lemma ErasedTakes(left: seq<Crc.Byte>, data: seq<Crc.Byte>)
    requires Good(left) && |data| == |left|
    ensures Programmed(left, 0, data) == data
  {
    hide And;
    AllOnes(ERASED);
  }

  /** Programming stores any data whatever exactly when the cells are erased: an erase that failed,
      whose answer the callers drop, spoils what is written next. */
  lemma ErasedTakesAll(left: seq<Crc.Byte>)
    ensures Good(left) <==> forall data: seq<Crc.Byte> | |data| == |left| :: Programmed(left, 0, data) == data
  {
    hide And;
    if Good(left) {
      AllOnes(ERASED);
    } else {
      var k :| 0 <= k < |left| && left[k] != ERASED;
      AllOnes(left[k]);
      var v: Crc.Byte :| And(left[k], v) != v;
      var data := seq(|left|, _ => v);
      assert Programmed(left, 0, data)[k] != data[k];
    }
  }

  /** The bytes of a package that follow its key, as reads deliver them. */
  lemma SeenSwid(c: Chip, top: nat, swid: seq<Crc.Byte>, rest: seq<Crc.Byte>)
    requires c.mode.ReadArray? && SERIAL_SIZE <= top <= |c.cells|
    requires c.cells[top - SERIAL_SIZE..top] == swid[..Kept(swid)] + rest
    ensures |swid| <= SERIAL_SIZE ==> Seen(c, top - SERIAL_SIZE, |swid|) == swid
    ensures Seen(c, top - SERIAL_SIZE, SERIAL_SIZE)[..Kept(swid)] == swid[..Kept(swid)]
  {
    var k, at := Kept(swid), top - SERIAL_SIZE;
    hide Seen;
    SeenCells(c, at, k);
    SeenCells(c, at, SERIAL_SIZE);
    SliceOfSlice(c.cells, at, top, 0, k);
    assert (swid[..k] + rest)[..k] == swid[..k];
    assert |swid| <= SERIAL_SIZE ==> swid[..k] == swid;
  }

  /** After a write on a sector that was erased well: the key and the SWID, up to 128 bytes, are read
      back, and the bytes before the package are the old ones. */
  lemma WriteThenRead(c: Chip, top: nat, was: seq<Crc.Byte>, left: seq<Crc.Byte>, key: Word, swid: seq<Crc.Byte>)
    requires c.mode.ReadArray? && PACKAGE_SIZE <= |was| <= top <= |c.cells| && |left| == |was| && Good(left)
    requires c.cells[top - |was|..top] == Programmed(left, 0, WithPackage(was, Package(key, swid)))
    ensures HasSwid(c.cells, top) && StoredKey(c.cells, top) == key
    ensures |swid| <= SERIAL_SIZE ==> Seen(c, top - SERIAL_SIZE, |swid|) == swid
    ensures Seen(c, top - SERIAL_SIZE, SERIAL_SIZE)[..Kept(swid)] == swid[..Kept(swid)]
    ensures c.cells[top - |was|..top - PACKAGE_SIZE] == was[..|was| - PACKAGE_SIZE]
  {
    hide Good, Programmed, WithPackage, Package, HasSwid, StoredKey, Seen, Zeroes;
    ErasedTakes(left, WithPackage(was, Package(key, swid)));
    PackageBack(c.cells, top, was, key, swid);
    SeenSwid(c, top, swid, Zeroes(SERIAL_SIZE - Kept(swid)));
  }

  /** After an erase there is no SWID, and the bytes before the package are the old ones. */
  lemma EraseThenIsSwid(c: Chip, top: nat, was: seq<Crc.Byte>, left: seq<Crc.Byte>)
    requires PACKAGE_SIZE <= |was| <= top <= |c.cells| && |left| == |was| && Good(left)
    requires c.cells[top - |was|..top] == Programmed(left, 0, WithPackage(was, Zeroes(PACKAGE_SIZE)))
    ensures !HasSwid(c.cells, top)
    ensures c.cells[top - |was|..top - PACKAGE_SIZE] == was[..|was| - PACKAGE_SIZE]
  {
    ErasedTakes(left, WithPackage(was, Zeroes(PACKAGE_SIZE)));
    ClearedHasNone(c.cells, top, was);
    SliceOfSlice(c.cells, top - |was|, top, 0, |was| - PACKAGE_SIZE);
  }

  lemma ProgrammedSlice(cells: seq<Crc.Byte>, at: nat, data: seq<Crc.Byte>)
    requires at + |data| <= |cells|
    ensures Programmed(cells, at, data)[at..at + |data|] == Programmed(cells[at..at + |data|], 0, data)
    ensures Outside(Programmed(cells, at, data), cells, at, at + |data|)
  {
    hide And;
  }

  /** The last sector of the image lies on the chip and has room for the package. */
  ghost predicate Shaped(rp: Rom)
    reads rp
  {
    && rp.chip.mode.ReadArray? && ErasesFit(rp.chip, rp.sector)
    && PACKAGE_SIZE <= rp.sector <= rp.bstart + rp.bsize <= |rp.chip.cells|
  }

  function Target(rp: Rom): nat
    requires rp.sector <= rp.bstart + rp.bsize
  {
    rp.bstart + rp.bsize - rp.sector
  }

  ghost function Sector(rp: Rom): (r: seq<Crc.Byte>)
    requires Shaped(rp)
    reads rp
    ensures |r| == rp.sector
  {
    rp.chip.cells[Target(rp)..rp.bstart + rp.bsize]
  }

  /** The buffered form refuses, silently, to program a sector that does not begin a buffer. */
  predicate Programs(rp: Rom, fast: bool)
    requires rp.sector <= rp.bstart + rp.bsize
  {
    !fast || Target(rp) % BUFFER_SIZE == 0
  }

  /** dagrom_readsector into a buffer of one sector. */
  method ReadSector(rp: Rom, sbuf: array<Crc.Byte>)
    requires Shaped(rp) && sbuf.Length == rp.sector
    modifies sbuf
    ensures sbuf[..] == Sector(rp)
  {
    DagromRead(rp, sbuf, Target(rp), rp.bstart + rp.bsize);
    SeenCells(rp.chip, Target(rp), rp.sector);
  }

  /** Erasing the last sector. */
  method EraseSector(rp: Rom) returns (r: Option<int>)
    requires Shaped(rp)
    modifies rp
    ensures r != None ==> Shaped(rp) && (r == Some(0) ==> Good(Sector(rp)))
    ensures Outside(rp.chip.cells, old(rp.chip).cells, Target(rp), rp.bstart + rp.bsize)
  {
    r := Erase.Erase(rp, Target(rp), rp.bstart + rp.bsize - 1);
  }

  /** Programming the last sector from a buffer. */
  method ProgramSector(rp: Rom, fast: bool, sbuf: array<Crc.Byte>)
    requires Shaped(rp) && sbuf.Length == rp.sector
    modifies rp
    ensures Shaped(rp)
    ensures Sector(rp) == if Programs(rp, fast) then Programmed(old(Sector(rp)), 0, sbuf[..]) else old(Sector(rp))
    ensures Outside(rp.chip.cells, old(rp.chip).cells, Target(rp), rp.bstart + rp.bsize)
  {
    ProgrammedSlice(rp.chip.cells, Target(rp), sbuf[..]);
    assert sbuf[..][..rp.sector] == sbuf[..];
    var _ := Program(rp, fast, sbuf[..], Target(rp), rp.bstart + rp.bsize);
  }

  /** Pieces put down one after the other at the end. */
  lemma Pieces(was: seq<Crc.Byte>, a: seq<Crc.Byte>, b: seq<Crc.Byte>, z: seq<Crc.Byte>, c: seq<Crc.Byte>)
    requires |a| + |b| + |z| <= |was| && |c| <= |z|
    ensures var at := |was| - |a| - |b| - |z|;
            Replaced(Replaced(Replaced(Replaced(was, at, a), at + |a|, b), at + |a| + |b|, z), at + |a| + |b|, c)
            == was[..at] + a + b + c + z[|c|..]
  {
    var at := |was| - |a| - |b| - |z|;
    var one := Replaced(was, at, a);
    var two := Replaced(one, at + |a|, b);
    assert two == was[..at] + a + b + was[at + |a| + |b|..];
    var three := Replaced(two, at + |a| + |b|, z);
    assert three == was[..at] + a + b + z;
  }

  lemma PackagePieces(was: seq<Crc.Byte>, swid: seq<Crc.Byte>, key: Word)
    requires |was| >= PACKAGE_SIZE
    ensures var at := |was| - PACKAGE_SIZE;
            Replaced(Replaced(Replaced(Replaced(was, at, LeBytes(MAGIC, 4)), at + 4, LeBytes(key, 4)),
                              at + 8, Zeroes(SERIAL_SIZE)),
                     at + 8, swid[..Kept(swid)])
            == WithPackage(was, Package(key, swid))
  {
    hide LeBytes, Replaced;
    Pieces(was, LeBytes(MAGIC, 4), LeBytes(key, 4), Zeroes(SERIAL_SIZE), swid[..Kept(swid)]);
    assert Zeroes(SERIAL_SIZE)[Kept(swid)..] == Zeroes(SERIAL_SIZE - Kept(swid));
  }

  /** Marker, key and SWID go into the sector buffer. */
  method Pack(sbuf: array<Crc.Byte>, swid: seq<Crc.Byte>, key: Word)
    requires sbuf.Length >= PACKAGE_SIZE
    modifies sbuf
    ensures sbuf[..] == WithPackage(old(sbuf[..]), Package(key, swid))
  {
    hide LeBytes, Replaced, Zeroes, WithPackage, Package;
    PackagePieces(sbuf[..], swid, key);
    Copy(sbuf, sbuf.Length - PACKAGE_SIZE, LeBytes(MAGIC, 4));
    Copy(sbuf, sbuf.Length - SERIAL_SIZE - 4, LeBytes(key, 4));
    Copy(sbuf, sbuf.Length - SERIAL_SIZE, Zeroes(SERIAL_SIZE));
    Copy(sbuf, sbuf.Length - SERIAL_SIZE, swid[..Kept(swid)]);
  }

  /** dagswid_write; None when an erase waits for ever. What the erases answer is not looked at: `left`
      is what the second one leaves. */
  method DagswidWrite(rp: Rom, fast: bool, swid: seq<Crc.Byte>, key: Word)
    returns (r: Option<int>, ghost left: seq<Crc.Byte>, ghost answer: Option<int>)
    requires Shaped(rp)
    modifies rp
    ensures !Supported(rp.deviceCode) ==> r == Some(-1) && rp.chip == old(rp.chip)
    ensures Supported(rp.deviceCode) ==> r == None || r == Some(0)
    ensures Outside(rp.chip.cells, old(rp.chip).cells, Target(rp), rp.bstart + rp.bsize)
    ensures r == Some(0) ==>
              && Shaped(rp) && |left| == rp.sector && (answer == Some(0) ==> Good(left))
              && Sector(rp) == if Programs(rp, fast)
                               then Programmed(left, 0, WithPackage(old(Sector(rp)), Package(key, swid)))
                               else left
  {
    left, answer := [], None;
    if !Supported(rp.deviceCode) {
      return Some(-1), left, answer;
    }
    hide WithPackage, Package, Good, Outside;
    ghost var was := Sector(rp);
    var sbuf := new Crc.Byte[rp.sector];
    ReadSector(rp, sbuf);
    var first := EraseSector(rp);
    if first == None {
      return None, left, answer;
    }
    Pack(sbuf, swid, key);
    var second := EraseSector(rp);
    if second == None {
      return None, left, answer;
    }
    left, answer := Sector(rp), second;
    ProgramSector(rp, fast, sbuf);
    return Some(0), left, answer;
  }

  /** dagswid_erase. */
  method DagswidErase(rp: Rom, fast: bool)
    returns (r: Option<int>, ghost left: seq<Crc.Byte>, ghost answer: Option<int>)
    requires Shaped(rp)
    modifies rp
    ensures !Supported(rp.deviceCode) ==> r == Some(-1) && rp.chip == old(rp.chip)
    ensures Supported(rp.deviceCode) ==> r == None || r == Some(0)
    ensures Outside(rp.chip.cells, old(rp.chip).cells, Target(rp), rp.bstart + rp.bsize)
    ensures r == Some(0) ==>
              && Shaped(rp) && |left| == rp.sector && (answer == Some(0) ==> Good(left))
              && Sector(rp) == if Programs(rp, fast)
                               then Programmed(left, 0, WithPackage(old(Sector(rp)), Zeroes(PACKAGE_SIZE)))
                               else left
  {
    left, answer := [], None;
    if !Supported(rp.deviceCode) {
      return Some(-1), left, answer;
    }
    ghost var was := Sector(rp);
    var sbuf := new Crc.Byte[rp.sector];
    ReadSector(rp, sbuf);
    var first := EraseSector(rp);
    if first == None {
      return None, left, answer;
    }
    left, answer := Sector(rp), first;
    Copy(sbuf, rp.sector - PACKAGE_SIZE, Zeroes(PACKAGE_SIZE));
    assert sbuf[..] == WithPackage(was, Zeroes(PACKAGE_SIZE));
    ProgramSector(rp, fast, sbuf);
    return Some(0), left, answer;
  }

  // ---- Looking at the package ----

  /** What a buffer holds after the beginning of the package was read into it. */
  lemma MarkSeen(was: seq<Crc.Byte>, c: Chip, top: nat, n: nat)
    requires c.mode.ReadArray? && 4 <= n <= PACKAGE_SIZE <= top <= |c.cells| && n <= |was|
    ensures |Replaced(was, 0, Seen(c, top - PACKAGE_SIZE, n))| == |was|
    ensures WordAt(Replaced(was, 0, Seen(c, top - PACKAGE_SIZE, n))[..4]) == MAGIC <==> HasSwid(c.cells, top)
  {
    hide WordAt;
    SeenCells(c, top - PACKAGE_SIZE, n);
    SliceOfSlice(c.cells, top - PACKAGE_SIZE, top - PACKAGE_SIZE + n, 0, 4);
    assert Replaced(was, 0, Seen(c, top - PACKAGE_SIZE, n))[..4] == c.cells[top - PACKAGE_SIZE..top - PACKAGE_SIZE + 4];
  }

  /** Reads the beginning of the package into a scratch buffer, and says whether it is marked as one. */
  method ReadMark(rp: Rom, size: nat, n: nat) returns (keybuf: array<Crc.Byte>, found: bool)
    requires Shaped(rp) && 4 <= n <= size && n <= PACKAGE_SIZE
    ensures fresh(keybuf) && keybuf.Length == size
    ensures found <==> HasSwid(rp.chip.cells, rp.bstart + rp.bsize)
  {
    hide WordAt, Seen, Replaced, HasSwid;
    keybuf := new Crc.Byte[size];
    MarkSeen(keybuf[..], rp.chip, rp.bstart + rp.bsize, n);
    var rptr := rp.bstart + rp.bsize - PACKAGE_SIZE;
    DagromRead(rp, keybuf, rptr, rptr + n);
    assert keybuf[..4] == keybuf[..][..4];
    found := WordAt(keybuf[..4]) == MAGIC;
  }

  /** dagswid_isswid. */
  method DagswidIsSwid(rp: Rom) returns (r: int)
    requires Shaped(rp)
    ensures var supported := rp.deviceCode in {0x430e, 0x378e, 0x3707, 0x3747, 0x7100};
            r == if supported && HasSwid(rp.chip.cells, rp.bstart + rp.bsize) then 0 else -1
  {
    if Supported(rp.deviceCode) {
      var _, found := ReadMark(rp, HEADER_SIZE, HEADER_SIZE);
      if found {
        return 0;
      }
    }
    return -1;
  }

  /** dagswid_readkey: the answer and what the key variable holds afterwards. */
  method DagswidReadKey(rp: Rom, before: Word) returns (r: int, key: Word)
    requires Shaped(rp)
    ensures r == if !Supported(rp.deviceCode) then -3
                 else if HasSwid(rp.chip.cells, rp.bstart + rp.bsize) then 0 else -2
    ensures key == if r == 0 then StoredKey(rp.chip.cells, rp.bstart + rp.bsize) else before
  {
    if !Supported(rp.deviceCode) {
      return -3, before;
    }
    hide WordAt, HasSwid;
    var keybuf, found := ReadMark(rp, HEADER_SIZE, HEADER_SIZE);
    if found {
      var rptr := rp.bstart + rp.bsize - SERIAL_SIZE - 4;
      DagromRead(rp, keybuf, rptr, rptr + 4);
      SeenCells(rp.chip, rptr, 4);
      assert keybuf[..4] == keybuf[..][..4];
      return 0, WordAt(keybuf[..4]);
    }
    return -2, before;
  }

  /** dagswid_checkkey. The answer of the reader is kept in an unsigned variable, so that the test for
      a negative one never holds: without a key, the given one is compared with `stale`, whatever the
      key variable held, and -2 is never answered. */
  method DagswidCheckKey(rp: Rom, key: Word, stale: Word) returns (r: int)
    requires Shaped(rp)
    ensures var top := rp.bstart + rp.bsize;
            r == if !Supported(rp.deviceCode) then -1
                 else if key == (if HasSwid(rp.chip.cells, top) then StoredKey(rp.chip.cells, top) else stale) then 0
                 else -3
  {
    if !Supported(rp.deviceCode) {
      return -1;
    }
    var answer, stored := DagswidReadKey(rp, stale);
    var ret: nat := if answer < 0 then TWO32 + answer else answer;
    if ret < 0 {
      return ret;
    }
    if stored != key {
      return -3;
    }
    return 0;
  }

  /** dagswid_read: the buffer stays as it was when there is no SWID, and the answer is 0 all the same.
      Nine bytes are read into the scratch buffer first; the source has room for only eight of them when
      `len` is 0, and the ninth is a place of its own here. */
  method DagswidRead(rp: Rom, swidbuf: array<Crc.Byte>, len: nat) returns (r: int)
    requires Shaped(rp) && len <= swidbuf.Length
    modifies swidbuf
    ensures r == if Supported(rp.deviceCode) then 0 else -1
    ensures swidbuf[..] == if Supported(rp.deviceCode) && HasSwid(rp.chip.cells, rp.bstart + rp.bsize)
                           then Replaced(old(swidbuf[..]), 0, Seen(rp.chip, rp.bstart + rp.bsize - SERIAL_SIZE, len))
                           else old(swidbuf[..])
  {
    if !Supported(rp.deviceCode) {
      return -1;
    }
    hide WordAt, Seen, Replaced, HasSwid, Supported, ErasesFit;
    ghost var was, c, top := swidbuf[..], rp.chip, rp.bstart + rp.bsize;
    var _, found := ReadMark(rp, HEADER_SIZE + if len == 0 then 1 else len, HEADER_SIZE + 1);
    assert swidbuf[..] == was && rp.chip == c;
    if found {
      var rptr := rp.bstart + rp.bsize - SERIAL_SIZE;
      DagromRead(rp, swidbuf, rptr, rptr + len);
      assert swidbuf[..] == Replaced(was, 0, Seen(c, top - SERIAL_SIZE, len));
    }
    return 0;
  }
}
