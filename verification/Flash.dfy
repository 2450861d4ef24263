/** A NOR flash chip behind the ROM controller, and the two ways of programming it. */
module Flash {
  import opened ByteIndex

  type Byte = bv8

  const READ_ARRAY: Byte := 0xff
  const READ_STATUS: Byte := 0x70
  const CLEAR_STATUS: Byte := 0x50
  const WRITE_BYTE: Byte := 0x40
  const BLOCK_ERASE: Byte := 0x20
  const RESUME: Byte := 0xd0
  const WRITE_BUFFER: Byte := 0xe8
  const CONFIRM: Byte := 0xd0
  const STATUS_READY: Byte := 0x80
  const ERASED: Byte := 0xff
  const BUFFER_SIZE := 32

  // ---- The chip ----

  /** What the chip takes the next write for. While a buffer is being filled, `next` is what the cells
      will hold once it is confirmed. A chip that is told anything out of order is at fault. */
  datatype Mode =
    | ReadArray
    | ReadStatus
    | ByteSetup
    | EraseSetup
    | BufferSetup(block: nat)
    | Loading(block: nat, left: nat, next: seq<Byte>)
    | Busy
    | Fault

  /** `erases` lists what the coming erase commands will leave in their sectors; a chip that has none
      left stays busy with the next one for ever. */
  datatype Chip = Chip(cells: seq<Byte>, mode: Mode, erases: seq<seq<Byte>>)

  function And(a: Byte, b: Byte): Byte {
    a & b
  }

  /** Programming can only clear bits. */
  function Put(cells: seq<Byte>, addr: nat, v: Byte): (r: seq<Byte>)
    ensures |r| == |cells|
  {
    if addr < |cells| then cells[addr := And(cells[addr], v)] else cells
  }

  /** The cells once `data` is programmed from `at` on. */
  function Programmed(cells: seq<Byte>, at: nat, data: seq<Byte>): (r: seq<Byte>)
    ensures |r| == |cells|
  {
    seq(|cells|, i requires 0 <= i < |cells| => if at <= i < at + |data| then And(cells[i], data[i - at]) else cells[i])
  }

  /** The cells with `data` in place of what was there. */
  function Replaced(cells: seq<Byte>, at: nat, data: seq<Byte>): (r: seq<Byte>)
    requires at + |data| <= |cells|
    ensures |r| == |cells|
  {
    cells[..at] + data + cells[at + |data|..]
  }

  predicate Idle(c: Chip) {
    c.mode.ReadArray? || c.mode.ReadStatus?
  }

  /** The chip after a write: the commands of the Intel set, with a buffer of 32 bytes. */
  function Wrote(c: Chip, addr: nat, v: Byte): Chip {
    match c.mode
    case ReadArray => Command(c, addr, v)
    case ReadStatus => Command(c, addr, v)
    case ByteSetup => c.(cells := Put(c.cells, addr, v), mode := ReadStatus)
    case EraseSetup => if v == 0xd0 then EraseBegun(c, addr) else c.(mode := Fault)
    case BufferSetup(block) =>
      if Index(v) < 32 && addr / 32 == block then c.(mode := Loading(block, Index(v) + 1, c.cells))
      else c.(mode := Fault)
    case Loading(block, left, next) =>
      if left > 0 && addr / 32 == block then c.(mode := Loading(block, left - 1, Put(next, addr, v)))
      else if left == 0 && v == 0xd0 then c.(cells := next, mode := ReadStatus)
      else c.(mode := Fault)
    case Busy => c
    case Fault => c
  }

  function Command(c: Chip, addr: nat, v: Byte): Chip {
    if v == 0xff then c.(mode := ReadArray)
    else if v == 0x70 then c.(mode := ReadStatus)
    else if v == 0x50 then c
    else if v == 0x40 then c.(mode := ByteSetup)
    else if v == 0x20 then c.(mode := EraseSetup)
    else if v == 0xe8 then c.(mode := BufferSetup(addr / 32))
    else c.(mode := Fault)
  }

  /** An erase of the sector that begins at `addr`. */
  function EraseBegun(c: Chip, addr: nat): Chip {
    if c.erases == [] then c.(mode := Busy)
    else if addr + |c.erases[0]| > |c.cells| then c.(mode := Fault)
    else Chip(Replaced(c.cells, addr, c.erases[0]), ReadStatus, c.erases[1..])
  }

  /** A read: of the array, or of the status, whose highest bit alone says that the chip is ready. */
  function ReadOf(c: Chip, addr: nat): Byte {
    if c.mode.ReadArray? && addr < |c.cells| then c.cells[addr]
    else if c.mode.Busy? then 0x7f
    else 0x80
  }

  /** The fields of romtab_t that the drivers below use. */
  class Rom {
    var chip: Chip
    const sector: nat
    const bstart: nat
    const bsize: nat
    const deviceCode: nat

    constructor (chip: Chip, sector: nat, bstart: nat, bsize: nat, deviceCode: nat)
      ensures this.chip == chip && this.sector == sector && this.bstart == bstart && this.bsize == bsize
      ensures this.deviceCode == deviceCode
    {
      this.chip := chip;
      this.sector := sector;
      this.bstart := bstart;
      this.bsize := bsize;
      this.deviceCode := deviceCode;
    }

    method RomWrite(addr: nat, v: Byte)
      modifies this
      ensures chip == Wrote(old(chip), addr, v)
    {
      chip := Wrote(chip, addr, v);
    }

    method RomRead(addr: nat) returns (v: Byte)
      ensures v == ReadOf(chip, addr)
    {
      v := ReadOf(chip, addr);
    }

    /** cfi_status, once. */
    method Ready() returns (ready: bool)
      requires Idle(chip) || chip.mode.Busy?
      modifies this
      ensures ready == !old(chip).mode.Busy?
      ensures chip == if ready then old(chip).(mode := ReadStatus) else old(chip)
    {
      RomWrite(0, READ_STATUS);
      var s := RomRead(0);
      ready := s & STATUS_READY != 0;
    }
  }

  // ---- Byte by byte ----

  lemma PutIsNext(cells: seq<Byte>, at: nat, data: seq<Byte>, v: Byte)
    ensures Put(Programmed(cells, at, data), at + |data|, v) == Programmed(cells, at, data + [v])
  {
    hide And;
  }

  lemma ProgrammedNothing(cells: seq<Byte>, at: nat)
    ensures Programmed(cells, at, []) == cells
  {
  }

  /** How many bytes cfi_program writes. */
  function Span(len: nat, saddr: nat, eaddr: nat): (n: nat)
    ensures n <= len
  {
    if eaddr <= saddr then 0 else if len <= eaddr - saddr then len else eaddr - saddr
  }

  /** The loop of cfi_program. */
  method ProgramBytes(rp: Rom, bp: seq<Byte>, saddr: nat, eaddr: nat)
    requires Idle(rp.chip)
    modifies rp
    ensures rp.chip == old(rp.chip).(mode := ReadArray,
                                     cells := Programmed(old(rp.chip).cells, saddr, bp[..Span(|bp|, saddr, eaddr)]))
  {
    hide Put, Programmed;
    ghost var cells, erases := rp.chip.cells, rp.chip.erases;
    ProgrammedNothing(cells, saddr);
    var addr, count := saddr, |bp|;
    while count > 0 && addr < eaddr
      invariant count <= |bp| && addr == saddr + (|bp| - count)
      invariant |bp| - count <= Span(|bp|, saddr, eaddr)
      invariant Idle(rp.chip) && rp.chip.erases == erases
      invariant rp.chip.cells == Programmed(cells, saddr, bp[..|bp| - count])
    {
      ghost var k := |bp| - count;
      rp.RomWrite(0, CLEAR_STATUS);
      rp.RomWrite(addr, WRITE_BYTE);
      rp.RomWrite(addr, bp[|bp| - count]);
      PutIsNext(cells, saddr, bp[..k], bp[k]);
      assert bp[..k] + [bp[k]] == bp[..k + 1];
      var _ := rp.Ready();
      addr, count := addr + 1, count - 1;
    }
    rp.RomWrite(0, READ_ARRAY);
  }

  // ---- Through the buffer ----

  function RoundUp(n: nat): (r: nat)
    ensures n <= r < n + BUFFER_SIZE && r % BUFFER_SIZE == 0
  {
    (n + BUFFER_SIZE - 1) / BUFFER_SIZE * BUFFER_SIZE
  }

  /** How many bytes cfi_buffered_program writes: its loop looks at `eaddr` only between buffers. */
  function Reach(len: nat, saddr: nat, eaddr: nat): (n: nat)
    ensures n <= len
  {
    if eaddr <= saddr then 0 else if len <= RoundUp(eaddr - saddr) then len else RoundUp(eaddr - saddr)
  }

  /** One buffered command, of the `size` bytes `data` at the start of a block. */
  method ProgramBuffer(rp: Rom, addr: nat, data: seq<Byte>)
    requires Idle(rp.chip) && addr % BUFFER_SIZE == 0 && 1 <= |data| <= BUFFER_SIZE
    modifies rp
    ensures rp.chip == old(rp.chip).(mode := ReadStatus, cells := Programmed(old(rp.chip).cells, addr, data))
  {
    hide Put, Programmed, Index, ByteAt;
    ghost var c := rp.chip;
    ProgrammedNothing(c.cells, addr);
    rp.RomWrite(addr, WRITE_BUFFER);
    IndexOf(|data| - 1);
    rp.RomWrite(addr, ByteAt(|data| - 1));
    assert data[..0] == [];
    for ind := 0 to |data|
      invariant rp.chip == c.(mode := Loading(addr / BUFFER_SIZE, |data| - ind, Programmed(c.cells, addr, data[..ind])))
    {
      rp.RomWrite(addr + ind, data[ind]);
      PutIsNext(c.cells, addr, data[..ind], data[ind]);
      assert data[..ind] + [data[ind]] == data[..ind + 1];
    }
    assert data[..|data|] == data;
    rp.RomWrite(addr, CONFIRM);
    var _ := rp.Ready();
  }

  lemma ProgrammedTwice(cells: seq<Byte>, at: nat, a: seq<Byte>, b: seq<Byte>)
    ensures Programmed(Programmed(cells, at, a), at + |a|, b) == Programmed(cells, at, a + b)
  {
    hide And;
  }

  /** Where the loop over buffers is after one more, and where it ends. */
  lemma ReachStep(len: nat, saddr: nat, eaddr: nat, done: nat)
    requires saddr % BUFFER_SIZE == 0 && done <= Reach(len, saddr, eaddr)
    requires done == len || (saddr + done) % BUFFER_SIZE == 0
    ensures if done < len && saddr + done < eaddr then
              var next := done + if len - done > BUFFER_SIZE then BUFFER_SIZE else len - done;
              next <= Reach(len, saddr, eaddr) && (next == len || (saddr + next) % BUFFER_SIZE == 0)
            else done == Reach(len, saddr, eaddr)
  {
    hide RoundUp;
    if done != len && saddr < eaddr {
      assert done % BUFFER_SIZE == 0;
      NextBuffer(eaddr - saddr, done);
    }
  }

  /** While whole buffers make up fewer than `n` bytes, one more stays within RoundUp(n); then they fill it. */
  lemma NextBuffer(n: nat, done: nat)
    requires done % BUFFER_SIZE == 0
    ensures if done < n then done + BUFFER_SIZE <= RoundUp(n) else RoundUp(n) <= done
  {
  }

  /** cfi_buffered_program. */
  method ProgramBuffered(rp: Rom, bp: seq<Byte>, saddr: nat, eaddr: nat) returns (r: int)
    requires Idle(rp.chip)
    modifies rp
    ensures saddr % BUFFER_SIZE != 0 ==> r == -1 && rp.chip == old(rp.chip)
    ensures saddr % BUFFER_SIZE == 0 ==>
              var was, data := old(rp.chip), bp[..Reach(|bp|, saddr, eaddr)];
              r == 0 && rp.chip == was.(mode := ReadArray, cells := Programmed(was.cells, saddr, data))
  {
    hide Put, Programmed, Reach;
    if saddr % BUFFER_SIZE != 0 {
      return -1;
    }
    ghost var cells, erases := rp.chip.cells, rp.chip.erases;
    ProgrammedNothing(cells, saddr);
    var _ := rp.Ready();
    rp.RomWrite(0, CLEAR_STATUS);
    var addr, count := saddr, |bp|;
    assert bp[..0] == [];
    while count > 0 && addr < eaddr
      invariant count <= |bp| && addr == saddr + (|bp| - count)
      invariant |bp| - count <= Reach(|bp|, saddr, eaddr)
      invariant count == 0 || addr % BUFFER_SIZE == 0
      invariant Idle(rp.chip) && rp.chip.erases == erases
      invariant rp.chip.cells == Programmed(cells, saddr, bp[..|bp| - count])
    {
      var size := if count > BUFFER_SIZE then BUFFER_SIZE else count;
      var done := |bp| - count;
      ReachStep(|bp|, saddr, eaddr, done);
      ProgramBuffer(rp, addr, bp[done..done + size]);
      ProgrammedTwice(cells, saddr, bp[..done], bp[done..done + size]);
      assert bp[..done] + bp[done..done + size] == bp[..done + size];
      addr, count := addr + size, count - size;
    }
    ReachStep(|bp|, saddr, eaddr, |bp| - count);
    rp.RomWrite(0, READ_ARRAY);
    return 0;
  }

  /** What either form leaves in the cells. The fast one stores nothing when it refuses the start. */
  function Stored(cells: seq<Byte>, fast: bool, bp: seq<Byte>, saddr: nat, eaddr: nat): (r: seq<Byte>)
    ensures |r| == |cells|
  {
    if fast && saddr % BUFFER_SIZE != 0 then cells
    else Programmed(cells, saddr, bp[..if fast then Reach(|bp|, saddr, eaddr) else Span(|bp|, saddr, eaddr)])
  }

  /** cfi_program. In fast mode the answer of the buffered form is lost: a refused start, which leaves
      even the mode of the chip as it was, is answered like any other. */
  method Program(rp: Rom, fast: bool, bp: seq<Byte>, saddr: nat, eaddr: nat) returns (r: int)
    requires Idle(rp.chip)
    modifies rp
    ensures r == 0
    ensures rp.chip == old(rp.chip).(mode := if fast && saddr % BUFFER_SIZE != 0 then old(rp.chip).mode else ReadArray,
                                     cells := Stored(old(rp.chip).cells, fast, bp, saddr, eaddr))
  {
    hide Programmed, Reach, Span;
    if fast {
      var _ := ProgramBuffered(rp, bp, saddr, eaddr);
    } else {
      ProgramBytes(rp, bp, saddr, eaddr);
    }
    return 0;
  }

  /** The fast form gets by with the bytes of the simple one: it has the same to store, whole buffers to
      store, or nothing. */
  predicate SameSpan(len: nat, saddr: nat, eaddr: nat) {
    if saddr % BUFFER_SIZE != 0 then len == 0 || eaddr <= saddr
    else eaddr <= saddr || len <= eaddr - saddr || (eaddr - saddr) % BUFFER_SIZE == 0
  }

  /** The fast form stores what the simple one stores, whatever the cells and the data, exactly when
      there is nothing to store or the range begins with a buffer, and no data is left over at `eaddr`
      or `eaddr` ends a buffer. */
  lemma FastIsSimple(len: nat, saddr: nat, eaddr: nat)
    ensures (forall cells: seq<Byte>, bp: seq<Byte> | |bp| == len ::
               Stored(cells, true, bp, saddr, eaddr) == Stored(cells, false, bp, saddr, eaddr))
            <==> SameSpan(len, saddr, eaddr)
  {
    if SameSpan(len, saddr, eaddr) {
      forall cells: seq<Byte>, bp: seq<Byte> | |bp| == len
        ensures Stored(cells, true, bp, saddr, eaddr) == Stored(cells, false, bp, saddr, eaddr)
      {
        if saddr % BUFFER_SIZE != 0 {
          assert bp[..0] == [];
          ProgrammedNothing(cells, saddr);
        } else {
          assert Reach(len, saddr, eaddr) == Span(len, saddr, eaddr);
        }
      }
    } else {
      var at := if saddr % BUFFER_SIZE != 0 then saddr else eaddr;
      var cells, bp := seq(at + 1, _ => 1 as Byte), seq(len, _ => 0 as Byte);
      assert Stored(cells, true, bp, saddr, eaddr)[at] != Stored(cells, false, bp, saddr, eaddr)[at];
    }
  }
}
