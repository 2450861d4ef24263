/** The receive side of a stream: freeing buffer space, waiting for data, taking records. */
module RxStream {
  import opened Ring
  import opened Pbm
  import opened Wrappers

  const RECORD_HEADER: nat := 16
  const TYPE_MIN: nat := 1
  const TYPE_MAX: nat := 48

  /** The memory hole as attached: `extra` bytes are mapped a second time after the end. */
  datatype Hole = Hole(size: nat, bus: nat, extra: nat) {
    predicate Ok() {
      && 2 * SAFETY_WINDOW <= size <= MAX_HOLE
      && bus + size <= TWO32
      && 0 < extra <= size
    }
  }

  /** The limit that keeps the writer SAFETY_WINDOW bytes short of offset `x`. */
  function WrSafe(x: nat, size: nat): nat
    requires size >= SAFETY_WINDOW
  {
    if x < SAFETY_WINDOW then x + size - SAFETY_WINDOW else x - SAFETY_WINDOW
  }

  /** Offset shown by the record register; the top of the hole counts as its base. */
  function CurOffset(h: Hole, reading: nat): int {
    var off := I32(reading - h.bus);
    if off == h.size then 0 else off
  }

  /** Bytes between `bottom` and the writer, going forward, in unsigned 64-bit arithmetic: a writer far
      below the base counts as very much. */
  function Available(h: Hole, bottom: nat, off: int): int {
    var n := if off >= bottom then off - bottom else h.size - bottom + off;
    if n < 0 then n + TWO64 else n
  }

  /** The offset at which the waiting loop stops: enough data, or the last reading before the timeout. */
  function Await(h: Hole, mindata: nat, bottom: nat, polls: seq<nat>): int
    requires polls != []
    decreases |polls|
  {
    var off := CurOffset(h, polls[0]);
    if Available(h, bottom, off) >= mindata || |polls| == 1 then off
    else Await(h, mindata, bottom, polls[1..])
  }

  /** Where the data seen at `off` ends, in virtual offsets, cut to what is mapped. */
  function TopOf(h: Hole, bottom: nat, off: int): int {
    var top := if off < bottom then off + h.size else off;
    if top > h.size + h.extra then h.size + h.extra else top
  }

  function Min(a: int, b: int): int {
    if a < b then a else b
  }

  /** With the writer `ahead` bytes in front of `bottom`, less than a lap, a look shows those bytes,
      or as many of them as are mapped. */
  lemma TopShows(h: Hole, bottom: nat, ahead: nat)
    requires h.Ok() && bottom < h.size && ahead < h.size
    ensures var off := CurOffset(h, h.bus + Norm(bottom + ahead, h.size));
            && off == Norm(bottom + ahead, h.size)
            && TopOf(h, bottom, off) == bottom + Min(ahead, h.size + h.extra - bottom)
  {
    var place := Norm(bottom + ahead, h.size);
    assert I32(h.bus + place - h.bus) == place;
  }

  /** A register that shows the top of the hole stands for its base. */
  lemma TopIsBase(h: Hole)
    requires h.Ok()
    ensures CurOffset(h, h.bus + h.size) == CurOffset(h, h.bus) == 0
  {
  }

  /** And the loop compares exactly those bytes with what it waits for. */
  lemma AvailableExact(h: Hole, bottom: nat, ahead: nat)
    requires h.Ok() && bottom < h.size && ahead < h.size
    ensures Available(h, bottom, CurOffset(h, h.bus + Norm(bottom + ahead, h.size))) == ahead
  {
    TopShows(h, bottom, ahead);
    hide CurOffset;
  }

  /** A register far below the base ends the loop: the comparison is one of unsigned numbers. */
  lemma BelowIsMuch(h: Hole, bottom: nat, off: int)
    requires bottom < h.size && -TWO31 <= off < bottom - h.size
    ensures Available(h, bottom, off) >= TWO32
  {
  }

  /** What a register shows of a writer that is `ahead[i]` bytes in front of `bottom` at the i-th look. */
  function Shows(h: Hole, bottom: nat, ahead: seq<nat>): (polls: seq<nat>)
    ensures |polls| == |ahead|
  {
    seq(|ahead|, i requires 0 <= i < |ahead| => h.bus + Norm(bottom + ahead[i], h.size))
  }

  /** The waiting loop stops at the first look that shows enough, or at the last one: at `k`, if no look
      before it shows enough, and it does itself or is the last. */
  lemma {:induction false} AwaitStops(h: Hole, mindata: nat, bottom: nat, ahead: seq<nat>, k: nat)
    requires h.Ok() && bottom < h.size && k < |ahead| && forall i :: 0 <= i < |ahead| ==> ahead[i] < h.size
    requires forall i :: 0 <= i < k ==> ahead[i] < mindata
    requires ahead[k] >= mindata || k == |ahead| - 1
    ensures Await(h, mindata, bottom, Shows(h, bottom, ahead)) == Norm(bottom + ahead[k], h.size)
    decreases k
  {
    hide CurOffset, Available, Norm, TopOf;
    var polls := Shows(h, bottom, ahead);
    AvailableExact(h, bottom, ahead[0]);
    TopShows(h, bottom, ahead[0]);
    if k > 0 {
      assert polls[1..] == Shows(h, bottom, ahead[1..]);
      AwaitStops(h, mindata, bottom, ahead[1..], k - 1);
    }
  }

  /** What dag_rx_stream_next_record keeps between calls. */
  datatype Rx = Rx(offset: nat, freeSpace: int, processed: nat, first: bool)

  datatype Reply =
    | Record(at: nat, rlen: nat)
    | Again
    | BadType
    | Insane
    | Unmapped(at: nat)   // the header would be read outside the mapping
    | Paused              // a paused stream in reverse mode would have to advance

  /** `limit` is the last value written to the limit register, if any. */
  datatype Outcome = Outcome(rx: Rx, limit: Option<nat>, reply: Reply)

  function LimitFor(h: Hole, bottom: nat): nat
    requires h.Ok()
  {
    h.bus + WrSafe(Norm(bottom, h.size), h.size)
  }

  /** The header of the record at virtual offset `at`. */
  function TypeAt(mem: seq<Byte>, at: nat): nat
    requires at + 12 <= 2 * |mem|
  {
    View(mem, at, 12)[8] % 128
  }

  function RlenAt(mem: seq<Byte>, at: nat): nat
    requires at + 12 <= 2 * |mem|
  {
    BigEndian16(View(mem, at, 12)[10], View(mem, at, 12)[11])
  }

  function BigEndian16(high: nat, low: nat): nat {
    high * 256 + low
  }

  /** The header, byte by byte: its type is in the low seven bits of byte 8, its length the number with the
      digits 10 and 11 in base 256. */
  lemma HeaderDigits(mem: seq<Byte>, at: nat)
    requires at + 12 <= 2 * |mem|
    ensures TypeAt(mem, at) == mem[Norm(at + 8, |mem|)] % 128
    ensures RlenAt(mem, at) == 256 * (mem[Norm(at + 10, |mem|)] as int) + mem[Norm(at + 11, |mem|)]
  {
  }

  function Begin(rx: Rx): Rx {
    if rx.first then Rx(0, 0, 0, false) else rx
  }

  /** Whether a call has to free space and look for data before it can hand out `n` bytes. */
  predicate MustAdvance(h: Hole, rx: Rx, n: nat) {
    rx.freeSpace < n || rx.processed + n > h.extra
  }

  /** The state in the middle of a call: the record is wanted at `next`; `stop` ends the call early. */
  datatype Refilled = Refilled(rx: Rx, next: nat, limit: Option<nat>, stop: Option<Reply>)

  /** Makes sure that `n` bytes are readable at `next`, advancing the stream if they may not be. */
  function Refill(h: Hole, mindata: nat, rx: Rx, next: nat, n: nat, limit: Option<nat>, polls: seq<nat>): Refilled
    requires h.Ok() && polls != []
  {
    if !MustAdvance(h, rx, n) then Refilled(rx, next, limit, None)
    else
      var next' := Norm(next, h.size);
      var off := Await(h, mindata, next', polls);
      var limit' := Some(LimitFor(h, next));
      if off > h.size then Refilled(rx, next, limit', Some(Insane))
      else
        var rx' := rx.(freeSpace := TopOf(h, next', off) - next', processed := 0);
        Refilled(rx', next', limit', if rx'.freeSpace < n then Some(Again) else None)
  }

  /** dag_rx_stream_next_record. `polls1` and `polls2` are the readings of the record register in
      the at most two waiting loops. */
  function NextRecord(h: Hole, mindata: nat, rx: Rx, mem: seq<Byte>, polls1: seq<nat>, polls2: seq<nat>): Outcome
    requires h.Ok() && |mem| == h.size && polls1 != [] && polls2 != []
  {
    var a := Refill(h, mindata, Begin(rx), Begin(rx).offset, RECORD_HEADER, None, polls1);
    if a.stop.Some? then Outcome(a.rx, a.limit, a.stop.value)
    else WithHeader(h, mindata, a, mem, polls2)
  }

  /** Having seen the header at `a.next`, the call must advance before it can hand out the record. */
  predicate NeedsMore(h: Hole, a: Refilled, mem: seq<Byte>)
    requires |mem| == h.size
  {
    && a.next + 12 <= h.size + h.extra && a.next + 12 <= 2 * h.size
    && TYPE_MIN <= TypeAt(mem, a.next) <= TYPE_MAX && MustAdvance(h, a.rx, RlenAt(mem, a.next))
  }

  /** The second half of the call: a record header is believed to be at `a.next`. */
  function WithHeader(h: Hole, mindata: nat, a: Refilled, mem: seq<Byte>, polls: seq<nat>): Outcome
    requires h.Ok() && |mem| == h.size && polls != []
  {
    if a.next + 12 > h.size + h.extra then Outcome(a.rx, a.limit, Unmapped(a.next))
    else if !(TYPE_MIN <= TypeAt(mem, a.next) <= TYPE_MAX) then Outcome(a.rx, a.limit, BadType)
    else Finish(h, mindata, a, RlenAt(mem, a.next), polls)
  }

  /** The rest of the call: a record of `rlen` bytes is wanted at `a.next`. */
  function Finish(h: Hole, mindata: nat, a: Refilled, rlen: nat, polls: seq<nat>): Outcome
    requires h.Ok() && polls != []
  {
    var b := Refill(h, mindata, a.rx, a.next, rlen, a.limit, polls);
    if b.stop.Some? then Outcome(b.rx, b.limit, b.stop.value)
    else Outcome(Take(b.rx, b.next, rlen), b.limit, Record(b.next, rlen))
  }

  /** Of all the readings of a waiting loop only one decides where it stops. */
  lemma {:induction false} AwaitReads(h: Hole, mindata: nat, bottom: nat, polls: seq<nat>) returns (k: nat)
    requires polls != []
    ensures k < |polls| && Await(h, mindata, bottom, polls) == Await(h, mindata, bottom, [polls[k]])
    decreases |polls|
  {
    if Available(h, bottom, CurOffset(h, polls[0])) >= mindata || |polls| == 1 {
      k := 0;
    } else {
      var k' := AwaitReads(h, mindata, bottom, polls[1..]);
      k := k' + 1;
    }
  }

  lemma RefillReads(h: Hole, mindata: nat, rx: Rx, next: nat, n: nat, limit: Option<nat>, polls: seq<nat>)
      returns (k: nat)
    requires h.Ok() && polls != []
    ensures k < |polls|
    ensures Refill(h, mindata, rx, next, n, limit, polls) == Refill(h, mindata, rx, next, n, limit, [polls[k]])
  {
    k := AwaitReads(h, mindata, Norm(next, h.size), polls);
    hide Await, Norm, TopOf, LimitFor;
  }

  /** So a call depends on one reading in each of its loops. */
  lemma NextRecordReads(h: Hole, mindata: nat, rx: Rx, mem: seq<Byte>, polls1: seq<nat>, polls2: seq<nat>)
      returns (i: nat, j: nat)
    requires h.Ok() && |mem| == h.size && polls1 != [] && polls2 != []
    ensures i < |polls1| && j < |polls2|
    ensures NextRecord(h, mindata, rx, mem, polls1, polls2) == NextRecord(h, mindata, rx, mem, [polls1[i]], [polls2[j]])
  {
    hide Refill, View, TypeAt;
    i := RefillReads(h, mindata, Begin(rx), Begin(rx).offset, RECORD_HEADER, None, polls1);
    var a := Refill(h, mindata, Begin(rx), Begin(rx).offset, RECORD_HEADER, None, polls1);
    j := 0;
    if a.next + 12 <= h.size + h.extra {
      j := RefillReads(h, mindata, a.rx, a.next, RlenAt(mem, a.next), a.limit, polls2);
    }
    hide RlenAt;
  }

  lemma HeaderBytes(mem: seq<Byte>, at: nat)
    requires at + 12 <= 2 * |mem|
    ensures TypeAt(mem, at) == View(mem, at, 12)[8] % 128
    ensures RlenAt(mem, at) == BigEndian16(View(mem, at, 12)[10], View(mem, at, 12)[11])
  {
  }

  /** A call that finds its header without an advance refuses it exactly when its type is none of 1 to
      48, and moves nothing then. */
  lemma BadTypeExactly(h: Hole, mindata: nat, rx: Rx, mem: seq<Byte>, polls1: seq<nat>, polls2: seq<nat>)
    requires h.Ok() && |mem| == h.size && polls1 != [] && polls2 != []
    requires !rx.first && rx.freeSpace >= 16 && rx.processed + 16 <= h.extra && rx.offset + 12 <= h.size + h.extra
    ensures var o, t := NextRecord(h, mindata, rx, mem, polls1, polls2), mem[Norm(rx.offset + 8, |mem|)] % 128;
            (o.reply == BadType <==> t == 0 || t > 48) && (o.reply == BadType ==> o == Outcome(rx, None, BadType))
  {
    HeaderDigits(mem, rx.offset);
    hide TypeAt, RlenAt, Await, LimitFor;
  }

  /** A call that has to advance and is shown a place above the hole reports it, having written the
      limit. */
  lemma AboveIsInsane(h: Hole, mindata: nat, rx: Rx, mem: seq<Byte>, reading: nat, polls: seq<nat>)
    requires h.Ok() && |mem| == h.size && polls != []
    requires Begin(rx).freeSpace < 16 || Begin(rx).processed + 16 > h.extra
    requires h.bus + h.size < reading < h.bus + TWO31
    ensures NextRecord(h, mindata, rx, mem, [reading], polls)
         == Outcome(Begin(rx), Some(LimitFor(h, Begin(rx).offset)), Insane)
  {
    assert CurOffset(h, reading) == reading - h.bus;
    hide LimitFor, TopOf, CurOffset, WithHeader;
  }

  function Take(rx: Rx, next: nat, rlen: nat): Rx {
    rx.(offset := next + rlen, freeSpace := rx.freeSpace - rlen, processed := rx.processed + rlen)
  }

  /** A reverse-mode stream that is attached again finds its bottom in the limit register. */
  lemma RestoredStart(s: Stream, bottom: nat)
    requires s.hole.Ok() && bottom < s.hole.size
    ensures var limit := LimitFor(s.hole, bottom);
            && s.hole.bus <= limit < s.hole.bus + s.hole.size
            && s.StartAt(None, limit) == if s.mode == ReverseMode then bottom else 0
  {
  }

  datatype Advanced = Advanced(bottom: nat, top: int)

  /** A receive stream attached to a hole; `limitPtr` is the register this side writes. */
  class Stream {
    const hole: Hole
    const mindata: nat
    const mode: Mode
    const limitPtr: Register
    var offset: nat
    var freeSpace: int
    var processed: nat
    var isFirstTime: bool
    var lastBusBottom: nat
    var lastBusTop: int

    constructor (hole: Hole, mindata: nat, mode: Mode, limitPtr: Register)
      requires hole.Ok()
      modifies limitPtr
      ensures this.hole == hole && this.mindata == mindata && this.mode == mode && this.limitPtr == limitPtr
      ensures State() == Rx(0, 0, 0, true)
      ensures limitPtr.value == LimitFor(hole, 0)
    {
      this.hole, this.mindata, this.mode, this.limitPtr := hole, mindata, mode, limitPtr;
      offset, freeSpace, processed, isFirstTime := 0, 0, 0, true;
      lastBusBottom := hole.bus + hole.size - SAFETY_WINDOW;
      lastBusTop := hole.bus;
      limitPtr.value := hole.bus + hole.size - SAFETY_WINDOW;
    }

    function State(): Rx
      reads this
    {
      Rx(offset, freeSpace, processed, isFirstTime)
    }

    /** Turns the caller's bottom pointer into an offset; a missing one stands for NULL. */
    function StartAt(bottom: Option<nat>, limit: nat): nat
      requires hole.Ok() && hole.bus <= limit < hole.bus + hole.size
    {
      match bottom
      case Some(x) => Norm(x, hole.size)
      case None =>
        if mode == NormalMode then 0 else Norm(U32(limit - hole.bus + SAFETY_WINDOW), hole.size)
    }

    /** The polling loop of dag_advance_stream. */
    method WaitForData(bottom: nat, polls: seq<nat>) returns (off: int)
      requires polls != []
      ensures off == Await(hole, mindata, bottom, polls)
    {
      off := CurOffset(hole, polls[0]);
      var i := 0;
      while Available(hole, bottom, off) < mindata
        invariant i < |polls| && off == CurOffset(hole, polls[i])
        invariant Await(hole, mindata, bottom, polls) == Await(hole, mindata, bottom, polls[i..])
        decreases |polls| - i
      {
        if i == |polls| - 1 {
          break;
        }
        assert polls[i..][1..] == polls[i + 1..];
        i := i + 1;
        off := CurOffset(hole, polls[i]);
      }
    }

    /** dag_advance_stream. */
    method AdvanceStream(bottom: Option<nat>, paused: bool, polls: seq<nat>) returns (r: Result<Advanced>)
      requires hole.Ok() && polls != []
      requires hole.bus <= limitPtr.value < hole.bus + hole.size
      modifies this`lastBusBottom, this`lastBusTop, limitPtr
      ensures mode == ReverseMode && paused ==> r == Err(NoErrno) && limitPtr.value == old(limitPtr.value)
      ensures !(mode == ReverseMode && paused) ==>
                var b := StartAt(bottom, old(limitPtr.value));
                var off := Await(hole, mindata, b, polls);
                && limitPtr.value == lastBusBottom == hole.bus + WrSafe(b, hole.size)
                && r == if off > hole.size then Err(EIO) else Ok(Advanced(b, TopOf(hole, b, off)))
    {
      if mode == ReverseMode && paused {
        return Err(NoErrno);
      }
      var b := StartAt(bottom, limitPtr.value);
      lastBusBottom := hole.bus + WrSafe(b, hole.size);
      limitPtr.value := lastBusBottom;
      var off := WaitForData(b, polls);
      if off > hole.size {
        return Err(EIO);
      }
      lastBusTop := hole.bus + off;
      if off < b {
        off := off + hole.size;
      }
      if off > hole.size + hole.extra {
        off := hole.size + hole.extra;
      }
      return Ok(Advanced(b, off));
    }

    /** A paused stream in reverse mode does not advance. */
    predicate Halts(paused: bool) {
      mode == ReverseMode && paused
    }

    /** The refill that dag_rx_stream_next_record does before and after it has seen the header. */
    method EnsureReadable(next: nat, n: nat, ghost limit: Option<nat>, paused: bool, polls: seq<nat>)
      returns (next': nat, stop: Option<Reply>)
      requires hole.Ok() && polls != []
      requires hole.bus <= limitPtr.value < hole.bus + hole.size
      modifies this, limitPtr
      ensures Halts(paused) && MustAdvance(hole, old(State()), n) ==>
                State() == old(State()) && stop == Some(Paused) && limitPtr.value == old(limitPtr.value)
      ensures !(Halts(paused) && MustAdvance(hole, old(State()), n)) ==>
                var a := Refill(hole, mindata, old(State()), next, n, limit, polls);
                && State() == a.rx && next' == a.next && stop == a.stop
                && (if MustAdvance(hole, old(State()), n) then a.limit == Some(limitPtr.value)
                    else a.limit == limit && limitPtr.value == old(limitPtr.value))
      ensures next < 2 * hole.size ==> hole.bus <= limitPtr.value < hole.bus + hole.size
    {
      next', stop := next, None;
      if freeSpace < n || processed + n > hole.extra {
        var a := AdvanceStream(Some(next), paused, polls);
        if a.Err? {
          return next, if a.error == NoErrno then Some(Paused) else Some(Insane);
        }
        next' := a.value.bottom;
        processed := 0;
        freeSpace := a.value.top - next';
        if freeSpace < n {
          stop := Some(Again);
        }
      }
    }

    /** The part of dag_rx_stream_next_record after the first refill. */
    method TakeRecord(at: nat, ghost a: Refilled, buf: array<Byte>, paused: bool, polls: seq<nat>) returns (r: Reply)
      requires hole.Ok() && buf.Length == hole.size && polls != []
      requires hole.bus <= limitPtr.value < hole.bus + hole.size
      requires State() == a.rx && at == a.next
      modifies this, limitPtr
      ensures Halts(paused) && NeedsMore(hole, a, buf[..]) ==>
                State() == a.rx && r == Paused && limitPtr.value == old(limitPtr.value)
      ensures !(Halts(paused) && NeedsMore(hole, a, buf[..])) ==>
                var o := WithHeader(hole, mindata, a, buf[..], polls);
                && State() == o.rx && r == o.reply
                && (a.limit == Some(old(limitPtr.value)) ==> o.limit == Some(limitPtr.value))
                && (a.limit == None ==> limitPtr.value == if o.limit.Some? then o.limit.value else old(limitPtr.value))
    {
      hide TypeAt, RlenAt;
      if at + 12 > hole.size + hole.extra {
        return Unmapped(at);
      }
      HeaderBytes(buf[..], at);
      var header := View(buf[..], at, 12);
      var recordType := header[8] % 128;
      if recordType < TYPE_MIN || recordType > TYPE_MAX {
        return BadType;
      }
      var rlen := BigEndian16(header[10], header[11]);
      hide View, BigEndian16;
      var next, stop := EnsureReadable(at, rlen, a.limit, paused, polls);
      if stop.Some? {
        return stop.value;
      }
      offset := rlen + next;
      freeSpace := freeSpace - rlen;
      processed := processed + rlen;
      return Record(next, rlen);
    }

    /** dag_rx_stream_next_record; `paused1` and `paused2` say whether the stream is paused when the call
        comes to its two advances. */
    method NextRecordOf(buf: array<Byte>, paused1: bool, polls1: seq<nat>, paused2: bool, polls2: seq<nat>)
      returns (r: Reply)
      requires hole.Ok() && buf.Length == hole.size && polls1 != [] && polls2 != []
      requires hole.bus <= limitPtr.value < hole.bus + hole.size && offset < 2 * hole.size
      modifies this, limitPtr
      ensures var rx := Begin(old(State()));
              var a := Refill(hole, mindata, rx, rx.offset, RECORD_HEADER, None, polls1);
              if Halts(paused1) && MustAdvance(hole, rx, RECORD_HEADER) then
                State() == rx && r == Paused && limitPtr.value == old(limitPtr.value)
              else if a.stop.None? && Halts(paused2) && NeedsMore(hole, a, buf[..]) then
                && State() == a.rx && r == Paused
                && limitPtr.value == if a.limit.Some? then a.limit.value else old(limitPtr.value)
              else
                var o := NextRecord(hole, mindata, old(State()), buf[..], polls1, polls2);
                && State() == o.rx && r == o.reply
                && limitPtr.value == if o.limit.Some? then o.limit.value else old(limitPtr.value)
    {
      if isFirstTime {
        freeSpace, offset, processed, isFirstTime := 0, 0, 0, false;
      }
      ghost var rx := State();
      hide WithHeader, Refill, NeedsMore, MustAdvance;
      var next, stop := EnsureReadable(offset, RECORD_HEADER, None, paused1, polls1);
      if stop.Some? {
        return stop.value;
      }
      ghost var a := Refill(hole, mindata, rx, rx.offset, RECORD_HEADER, None, polls1);
      r := TakeRecord(next, a, buf, paused2, polls2);
    }
  }
}
