/** Reading ERF records from a hole that the card fills: dag_rx_stream_next_record over whole runs.

    The card appends the bytes of a list of records, one byte after the other, and stops when its place
    is the one that the limit register shows. It goes on while a call is under way, so that a call is
    several steps: it begins, and writes the limit register if it has to advance; looks at the card's
    register; reads the header, and writes the limit register again if it has to; and looks again. */
module RecordReader {
  import opened Ring
  import opened Wrappers
  import opened RxStream

  /** A record begins with a header of 16 bytes: byte 8 has the type in its low seven bits, bytes 10 and
      11 the length of the whole record, the higher byte first. */
  ghost predicate GoodRecord(r: seq<Byte>) {
    |r| >= 16 && 1 <= r[8] % 128 <= 48 && |r| == 256 * (r[10] as int) + r[11]
  }

  /** The bytes of the records one after the other. */
  function Flat(recs: seq<seq<Byte>>): seq<Byte> {
    if recs == [] then [] else Flat(recs[..|recs| - 1]) + recs[|recs| - 1]
  }

  /** Where record `i` begins. */
  function Start(recs: seq<seq<Byte>>, i: nat): nat
    requires i <= |recs|
  {
    |Flat(recs[..i])|
  }

  lemma {:induction false} RecordAt(recs: seq<seq<Byte>>, i: nat)
    requires i < |recs|
    ensures Start(recs, i + 1) == Start(recs, i) + |recs[i]| <= |Flat(recs)|
    ensures Flat(recs)[Start(recs, i)..Start(recs, i + 1)] == recs[i]
    decreases |recs|
  {
    assert recs[..i + 1][..i] == recs[..i];
    if i == |recs| - 1 {
      assert recs[..i + 1] == recs;
    } else {
      var front := recs[..|recs| - 1];
      RecordAt(front, i);
      assert front[..i] == recs[..i] && front[..i + 1] == recs[..i + 1];
    }
  }

  lemma StartEnds(recs: seq<seq<Byte>>)
    ensures Start(recs, |recs|) == |Flat(recs)|
  {
    assert recs[..|recs|] == recs;
  }

  /** The place of byte number `k` of a stream that began at the base. */
  function Lap(k: nat, size: nat): nat
    requires size > 0
  {
    if k < size then k else Lap(k - size, size)
  }

  lemma {:induction false} LapAdds(k: nat, d: nat, size: nat)
    requires size > 0 && d <= size
    ensures Lap(k, size) < size && Lap(k + d, size) == Norm(Lap(k, size) + d, size)
    decreases k
  {
    if k >= size {
      LapAdds(k - size, d, size);
    }
  }

  /** Where a call is: none is under way, and `reply` is what the last one said; it looks for data before
      the header; it has a header at `a.next`; it looks for the rest of a record of `rlen` bytes. */
  datatype Call =
    | Between(reply: RxStream.Reply)
    | Asking
    | Seen(a: Refilled)
    | Taking(a: Refilled, rlen: nat)

  /** The counts of bytes are for the reader of this model: neither the card nor the program looks at
      them. */
  datatype World = World(
    hole: Hole,
    mindata: nat,
    mem: seq<Byte>,
    card: nat,                   // where the card writes the next byte; its register shows this place
    limit: nat,                  // the limit register
    rx: Rx,
    call: Call,
    returned: seq<seq<Byte>>,    // what the calls have handed out, as the program saw it
    captured: nat,               // bytes that the card has written in all
    released: nat,               // bytes that the reader has freed in all,
    base: nat)                   // and the place that this is

  datatype Step =
    | Capture(b: Byte)           // the card writes a byte
    | Ask                        // a call begins
    | Look(seen: nat)            // it stops waiting; the last reading shows `seen` bytes
    | Header                     // it reads a record header

  /** The place of byte number `k` of the stream. */
  function Place(w: World, k: nat): nat
    requires w.released <= k
  {
    Norm(w.base + (k - w.released), w.hole.size)
  }

  /** What the card's register showed when `seen` bytes had been captured. */
  function Reading(w: World, seen: nat): nat
    requires w.released <= seen
  {
    w.hole.bus + Place(w, seen)
  }

  /** Where the record that is wanted next begins in the stream. */
  function Wanted(w: World, recs: seq<seq<Byte>>): nat
    requires |w.returned| <= |recs|
  {
    Start(recs, |w.returned|)
  }

  /** The card writes the next byte of the records unless it has reached the limit. A reading of its
      register lies between what the reader has already consumed and what has been captured by now; it
      may be out of date. */
  predicate Enabled(w: World, recs: seq<seq<Byte>>, step: Step)
    requires |w.returned| <= |recs|
  {
    match step
    case Capture(b) =>
      && w.captured < |Flat(recs)| && b == Flat(recs)[w.captured]
      && w.hole.bus + w.card != w.limit
    case Ask => w.call.Between?
    case Look(seen) => (w.call.Asking? || w.call.Taking?) && Wanted(w, recs) <= seen <= w.captured
    case Header => w.call.Seen?
  }

  function Captured(w: World, b: Byte): World
    requires w.card < |w.mem|
  {
    w.(mem := w.mem[w.card := b], card := Norm(w.card + 1, w.hole.size), captured := w.captured + 1)
  }

  /** An advance to the record that is wanted, at `next`, frees everything before it: it writes the limit
      register. */
  function Free(w: World, next: nat, wanted: nat): World
    requires w.hole.Ok()
  {
    w.(limit := LimitFor(w.hole, next), released := wanted, base := Norm(next, w.hole.size))
  }

  function Asked(w: World, wanted: nat): World
    requires w.hole.Ok()
  {
    var rx := Begin(w.rx);
    if MustAdvance(w.hole, rx, RECORD_HEADER) then Free(w, rx.offset, wanted).(rx := rx, call := Asking)
    else w.(rx := rx, call := Seen(Refilled(rx, rx.offset, None, None)))
  }

  function Ended(w: World, o: Outcome): World {
    w.(rx := o.rx, call := Between(o.reply), returned := w.returned + Handed(w.mem, o.reply))
  }

  /** The bytes that a program finds behind the returned pointer. */
  function Handed(mem: seq<Byte>, reply: RxStream.Reply): seq<seq<Byte>> {
    match reply
    case Record(at, rlen) => if at + rlen <= 2 * |mem| then [View(mem, at, rlen)] else []
    case _ => []
  }

  function LookedAt(w: World, seen: nat): World
    requires w.hole.Ok() && w.released <= seen && (w.call.Asking? || w.call.Taking?)
  {
    match w.call
    case Asking =>
      var a := Refill(w.hole, w.mindata, w.rx, w.rx.offset, RECORD_HEADER, None, [Reading(w, seen)]);
      w.(rx := a.rx, call := if a.stop.Some? then Between(a.stop.value) else Seen(a.(limit := None)))
    case Taking(a, rlen) => Ended(w, Finish(w.hole, w.mindata, a, rlen, [Reading(w, seen)]))
  }

  function HeaderRead(w: World, wanted: nat): World
    requires w.hole.Ok() && |w.mem| == w.hole.size && w.call.Seen?
  {
    var a := w.call.a;
    if NeedsMore(w.hole, a, w.mem) then Free(w, a.next, wanted).(call := Taking(a, RlenAt(w.mem, a.next)))
    else Ended(w, WithHeader(w.hole, w.mindata, a, w.mem, [0]))
  }

  // ---- What every step keeps ----

  /** Registers and places are the counts, modulo the size of the hole, and the card is a safety window
      short of a full hole. */
  ghost predicate Registers(w: World) {
    && w.hole.Ok() && w.base == Lap(w.released, w.hole.size) < w.hole.size
    && w.released <= w.captured && w.captured + SAFETY_WINDOW <= w.released + w.hole.size
    && w.card == Place(w, w.captured)
    && w.limit == w.hole.bus + Norm(w.base + w.hole.size - SAFETY_WINDOW, w.hole.size)
  }

  /** Everything captured and not freed is in the hole, in its place. */
  ghost predicate CardInv(w: World, log: seq<Byte>, wanted: nat) {
    && Registers(w) && |w.mem| == w.hole.size
    && w.released <= wanted <= w.captured <= |log|
    && Holds(w.mem, w.base, log[w.released..w.captured])
  }

  /** The reader's books. It will look at offset `next` for the wanted record, of length `rlen`: in
      step with what it has freed, or, after it had to give up, still a lap ahead of it. In the
      latter case it knows too little of the record to hand it out from there. */
  ghost predicate BooksInv(w: World, wanted: nat, rlen: nat, rx: Rx, next: nat) {
    var size := w.hole.size;
    && 0 <= rx.freeSpace <= w.captured - wanted
    && w.released <= wanted && rx.processed == wanted - w.released
    && ( || (next == w.base + (wanted - w.released) && next + rx.freeSpace <= size + w.hole.extra)
         || (next == w.base + size && wanted == w.released && (rx.freeSpace == 0 || rx.freeSpace < rlen)))
  }

  /** In the middle of an advance for `n` bytes at `next`: everything before the wanted record is freed. */
  ghost predicate Freed(w: World, wanted: nat, rx: Rx, next: nat, n: nat) {
    && w.released == wanted && next < 2 * w.hole.size && w.base == Norm(next, w.hole.size)
    && !rx.first && MustAdvance(w.hole, rx, n)
  }

  /** Length of the record that is wanted next, or 0 when there is none. */
  function WantedLen(w: World, recs: seq<seq<Byte>>): nat {
    if |w.returned| < |recs| then |recs[|w.returned|]| else 0
  }

  /** Where a call with a header looks is the offset it began with, or that brought back into the hole. */
  predicate CallAt(w: World, a: Refilled, wanted: nat) {
    && a.rx == w.rx && !a.rx.first && a.limit == None && a.stop == None
    && ( || a.next == w.rx.offset
         || (a.next == w.base && w.released == wanted && w.rx.offset == w.base + w.hole.size))
  }

  ghost predicate ReaderInv(w: World, wanted: nat, rlen: nat) {
    match w.call
    case Between(_) => BooksInv(w, wanted, rlen, Begin(w.rx), Begin(w.rx).offset)
    case Asking => Freed(w, wanted, w.rx, w.rx.offset, RECORD_HEADER)
    case Seen(a) =>
      CallAt(w, a, wanted) && BooksInv(w, wanted, rlen, a.rx, a.next) && a.rx.freeSpace >= RECORD_HEADER
    case Taking(a, n) =>
      CallAt(w, a, wanted) && n == rlen && Freed(w, wanted, a.rx, a.next, n)
  }

  ghost predicate GoodRecords(recs: seq<seq<Byte>>) {
    forall i :: 0 <= i < |recs| ==> GoodRecord(recs[i])
  }

  ghost predicate Inv(w: World, recs: seq<seq<Byte>>) {
    && GoodRecords(recs) && |w.returned| <= |recs|
    && CardInv(w, Flat(recs), Wanted(w, recs))
    && ReaderInv(w, Wanted(w, recs), WantedLen(w, recs))
    && (w.call.Taking? ==> |w.returned| < |recs|)
  }

  /** A fresh stream on a started card. */
  predicate Init(w: World) {
    && w.hole.Ok() && |w.mem| == w.hole.size
    && w.card == 0 && w.limit == w.hole.bus + w.hole.size - SAFETY_WINDOW
    && w.captured == w.released == w.base == 0
    && w.rx.first && w.call.Between? && w.returned == []
  }

  lemma InitInv(w: World, recs: seq<seq<Byte>>)
    requires Init(w) && GoodRecords(recs)
    ensures Inv(w, recs)
  {
    assert recs[..0] == [];
  }

  // ---- The card ----

  /** A card that has not reached the limit register has room for another byte. */
  lemma CardHasRoom(w: World)
    requires Registers(w) && w.hole.bus + w.card != w.limit
    ensures w.captured + 1 + SAFETY_WINDOW <= w.released + w.hole.size
  {
    hide Lap;
  }

  lemma CaptureRegisters(w: World, b: Byte)
    requires Registers(w) && w.hole.bus + w.card != w.limit && |w.mem| == w.hole.size
    ensures w.card < |w.mem| && Registers(Captured(w, b))
  {
    CardHasRoom(w);
    hide Lap;
    NormNorm(w.base, w.captured - w.released, 1, w.hole.size);
  }

  lemma CaptureHolds(w: World, log: seq<Byte>, wanted: nat, b: Byte)
    requires CardInv(w, log, wanted) && w.captured < |log| && b == log[w.captured]
    requires w.captured + 1 + SAFETY_WINDOW <= w.released + w.hole.size
    ensures w.card < |w.mem| && Holds(w.mem[w.card := b], w.base, log[w.released..w.captured + 1])
  {
    hide Lap, Holds, View;
    var held := log[w.released..w.captured];
    WriteKeeps(w.mem, w.base, held, |held|, b);
    HoldsExtends(w.mem[w.card := b], w.base, held, w.card, 1);
    assert log[w.released..w.captured + 1] == held + View(w.mem[w.card := b], w.card, 1);
  }

  lemma CaptureKeeps(w: World, log: seq<Byte>, wanted: nat, b: Byte)
    requires CardInv(w, log, wanted) && w.captured < |log| && b == log[w.captured]
    requires w.hole.bus + w.card != w.limit
    ensures CardInv(Captured(w, b), log, wanted)
  {
    CardHasRoom(w);
    CaptureHolds(w, log, wanted, b);
    hide Holds, Registers;
    CaptureRegisters(w, b);
  }

  /** Books stay in order when more is captured. */
  lemma CaptureReader(w: World, b: Byte, wanted: nat, rlen: nat)
    requires w.hole.Ok() && w.card < |w.mem| && ReaderInv(w, wanted, rlen)
    ensures ReaderInv(Captured(w, b), wanted, rlen)
  {
    hide MustAdvance, Norm;
  }

  lemma CaptureInv(w: World, recs: seq<seq<Byte>>, b: Byte)
    requires Inv(w, recs) && Enabled(w, recs, Capture(b))
    ensures w.card < |w.mem| && Inv(Captured(w, b), recs)
  {
    CaptureRegisters(w, b);
    hide Flat, GoodRecords, Registers, Holds;
    CaptureKeeps(w, Flat(recs), Wanted(w, recs), b);
    CaptureReader(w, b, Wanted(w, recs), WantedLen(w, recs));
    hide CardInv, ReaderInv;
  }

  // ---- Advancing ----

  /** The limit that an advance writes, in terms of the new base. */
  lemma LimitIs(h: Hole, next: nat)
    requires h.Ok() && next < 2 * h.size
    ensures LimitFor(h, next) == h.bus + Norm(Norm(next, h.size) + h.size - 8, h.size)
  {
  }

  lemma FreeRegisters(w: World, wanted: nat, next: nat)
    requires Registers(w) && w.released <= wanted <= w.captured
    requires next < 2 * w.hole.size && Norm(next, w.hole.size) == Place(w, wanted)
    ensures Registers(Free(w, next, wanted))
  {
    hide Lap;
    LimitIs(w.hole, next);
    LapAdds(w.released, wanted - w.released, w.hole.size);
    NormNorm(w.base, wanted - w.released, w.captured - wanted, w.hole.size);
    hide LimitFor, Norm;
  }

  lemma FreeHolds(w: World, log: seq<Byte>, wanted: nat)
    requires CardInv(w, log, wanted)
    ensures Holds(w.mem, Place(w, wanted), log[wanted..w.captured])
  {
    var held, k := log[w.released..w.captured], wanted - w.released;
    hide Lap, Holds, View;
    assert Place(w, wanted) == Norm(w.base + k, |w.mem|);
    hide CardInv, Norm, Place;
    HoldsDrops(w.mem, w.base, held, k);
    SliceOfSlice(log, w.released, w.captured, k, |held|);
    assert held[k..] == held[k..|held|];
  }

  /** Freeing keeps what the card has captured since. */
  lemma FreeKeeps(w: World, log: seq<Byte>, wanted: nat, next: nat)
    requires CardInv(w, log, wanted)
    requires next < 2 * w.hole.size && Norm(next, w.hole.size) == Place(w, wanted)
    ensures CardInv(Free(w, next, wanted), log, wanted)
  {
    FreeHolds(w, log, wanted);
    FreeRegisters(w, wanted, next);
    hide Holds, Lap, LimitFor, Norm;
    assert Free(w, next, wanted).base == Place(w, wanted);
    hide Registers;
  }

  lemma BooksPlace(w: World, log: seq<Byte>, wanted: nat, rlen: nat, rx: Rx, next: nat)
    requires CardInv(w, log, wanted) && BooksInv(w, wanted, rlen, rx, next)
    ensures next < 2 * w.hole.size && Norm(next, w.hole.size) == Place(w, wanted) < w.hole.size
  {
    hide Holds, Lap;
  }

  /** What an advance that has freed everything shows of the wanted record, up to byte `seen`. */
  function Shown(w: World, seen: nat): int {
    Min(seen - w.released, w.hole.size + w.hole.extra - w.base)
  }

  /** An advance that is under way, finished by a reading that shows `seen` bytes. */
  lemma RefillIs(w: World, log: seq<Byte>, wanted: nat, rx: Rx, next: nat, n: nat, seen: nat)
    requires CardInv(w, log, wanted) && Freed(w, wanted, rx, next, n) && wanted <= seen <= w.captured
    ensures var f := Shown(w, seen);
            && 0 <= f
            && Refill(w.hole, w.mindata, rx, next, n, None, [Reading(w, seen)])
            == Refilled(rx.(freeSpace := f, processed := 0), w.base, Some(w.limit), if f < n then Some(Again) else None)
  {
    hide Holds, Lap, TopOf, CurOffset;
    LimitIs(w.hole, next);
    TopShows(w.hole, w.base, seen - wanted);
    hide MustAdvance, LimitFor, Norm;
  }

  /** The books after an advance that shows `f` bytes: in order at the base, and, as long as that is less
      than the record, also at the offset from before the wrap. */
  lemma AdvancedBooks(w: World, wanted: nat, rlen: nat, rx: Rx, next: nat, n: nat, seen: nat)
    requires w.hole.Ok() && w.base < w.hole.size && Freed(w, wanted, rx, next, n) && wanted <= seen <= w.captured
    ensures var f := Shown(w, seen); var rx' := rx.(freeSpace := f, processed := 0);
            && BooksInv(w, wanted, rlen, rx', w.base)
            && (f == 0 || f < rlen ==> BooksInv(w, wanted, rlen, rx', next))
  {
  }

  // ---- A call begins ----

  lemma AskInv(w: World, recs: seq<seq<Byte>>)
    requires Inv(w, recs) && Enabled(w, recs, Ask)
    ensures Inv(Asked(w, Wanted(w, recs)), recs)
  {
    assert w.hole.Ok();
    hide Registers, Holds, Flat, GoodRecords, MustAdvance, LimitFor, Norm;
    var rx, wanted := Begin(w.rx), Wanted(w, recs);
    BooksPlace(w, Flat(recs), wanted, WantedLen(w, recs), rx, rx.offset);
    FreeKeeps(w, Flat(recs), wanted, rx.offset);
    AskedReader(w, wanted, WantedLen(w, recs));
    var v := Asked(w, wanted);
    SameCard(if MustAdvance(w.hole, rx, RECORD_HEADER) then Free(w, rx.offset, wanted) else w, v, Flat(recs), wanted);
    hide CardInv, ReaderInv;
  }

  lemma AskedReader(w: World, wanted: nat, rlen: nat)
    requires w.hole.Ok() && w.call.Between? && ReaderInv(w, wanted, rlen) && Begin(w.rx).offset < 2 * w.hole.size
    ensures ReaderInv(Asked(w, wanted), wanted, rlen)
  {
    hide LimitFor;
  }

  /** The look before the header: how the call goes on. */
  lemma AskLookIs(w: World, recs: seq<seq<Byte>>, seen: nat)
    requires Inv(w, recs) && w.call.Asking? && Enabled(w, recs, Look(seen))
    ensures var f := Shown(w, seen); var rx' := w.rx.(freeSpace := f, processed := 0);
            && 0 <= f
            && LookedAt(w, seen)
            == w.(rx := rx',
                  call := if f < RECORD_HEADER then Between(Again) else Seen(Refilled(rx', w.base, None, None)))
  {
    hide Refill, Flat, GoodRecords;
    RefillIs(w, Flat(recs), Wanted(w, recs), w.rx, w.rx.offset, RECORD_HEADER, seen);
    hide CardInv, Freed;
  }

  lemma AskLookInv(w: World, recs: seq<seq<Byte>>, seen: nat)
    requires Inv(w, recs) && w.call.Asking? && Enabled(w, recs, Look(seen))
    ensures Inv(LookedAt(w, seen), recs)
  {
    hide Flat, GoodRecords, LookedAt, Holds, Lap;
    var wanted, n := Wanted(w, recs), WantedLen(w, recs);
    AskLookIs(w, recs, seen);
    AdvancedBooks(w, wanted, n, w.rx, w.rx.offset, RECORD_HEADER, seen);
    WantedIsLong(w, recs);
    hide MustAdvance;
    SameCard(w, LookedAt(w, seen), Flat(recs), wanted);
    hide CardInv;
  }

  /** The wanted record has at least a header, or nothing of it has been captured. */
  lemma WantedIsLong(w: World, recs: seq<seq<Byte>>)
    requires Inv(w, recs)
    ensures WantedLen(w, recs) >= RECORD_HEADER || w.captured == Wanted(w, recs)
  {
    if |w.returned| == |recs| {
      StartEnds(recs);
    }
    hide Flat, Holds, Lap, ReaderInv;
  }

  /** The card's part of the invariant does not look at the call. */
  lemma SameCard(w: World, v: World, log: seq<Byte>, wanted: nat)
    requires CardInv(w, log, wanted) && v == w.(rx := v.rx, call := v.call, returned := v.returned)
    ensures CardInv(v, log, wanted)
  {
    hide Holds, Lap;
  }

  // ---- Header and record are the wanted ones ----

  /** Bytes `s` to `e` of the stream, seen at an offset whose place is that of byte `s`. */
  lemma StreamShows(w: World, log: seq<Byte>, wanted: nat, s: nat, e: nat, at: nat)
    requires CardInv(w, log, wanted) && w.released <= s <= e <= w.captured
    requires at < 2 * w.hole.size && at + (e - s) <= 2 * w.hole.size && Norm(at, w.hole.size) == Place(w, s)
    ensures View(w.mem, at, e - s) == log[s..e]
  {
    hide View, Lap;
    HoldsShows(w.mem, w.base, log[w.released..w.captured], s - w.released, at, e - s);
    SliceOfSlice(log, w.released, w.captured, s - w.released, e - w.released);
  }

  /** Sixteen readable bytes at the wanted place are the header of the wanted record. */
  lemma HeaderIsWanted(w: World, recs: seq<seq<Byte>>, v: nat)
    requires Inv(w, recs) && Wanted(w, recs) + RECORD_HEADER <= w.captured
    requires v + 12 <= 2 * w.hole.size && Norm(v, w.hole.size) == Place(w, Wanted(w, recs))
    ensures |w.returned| < |recs|
    ensures TYPE_MIN <= TypeAt(w.mem, v) <= TYPE_MAX && RlenAt(w.mem, v) == WantedLen(w, recs)
  {
    var k, wanted := |w.returned|, Wanted(w, recs);
    hide ReaderInv, Lap, Holds;
    if k == |recs| {
      StartEnds(recs);
    } else {
      RecordAt(recs, k);
      StreamShows(w, Flat(recs), wanted, wanted, wanted + 12, v);
      assert forall i :: 0 <= i < 12 ==> View(w.mem, v, 12)[i] == Flat(recs)[wanted..wanted + |recs[k]|][i];
    }
  }

  // ---- A record is handed out ----

  /** The world after a record was handed out at `at`. */
  function Taken(w: World, rx: Rx, at: nat, n: nat): World
    requires at + n <= 2 * |w.mem|
  {
    w.(rx := Take(rx, at, n), call := Between(Record(at, n)), returned := w.returned + [View(w.mem, at, n)])
  }

  /** Handing out a whole record from where the reader is in step keeps it in step. */
  lemma TakeBooks(w: World, wanted: nat, rlen: nat, rx: Rx, next: nat, n: nat)
    requires w.hole.Ok() && BooksInv(w, wanted, n, rx, next) && 0 < n <= rx.freeSpace
    ensures BooksInv(w, wanted + n, rlen, Take(rx, next, n), next + n)
    ensures next + n <= w.hole.size + w.hole.extra && wanted + n <= w.captured
  {
  }

  /** The wanted record fits what is mapped behind the place where it begins. */
  predicate Fits(h: Hole, recs: seq<seq<Byte>>, i: nat)
    requires i < |recs| && h.size > 0
  {
    Lap(Start(recs, i), h.size) + |recs[i]| <= h.size + h.extra
  }

  lemma TakenFits(w: World, recs: seq<seq<Byte>>, at: nat)
    requires Registers(w) && |w.returned| < |recs| && w.released <= Wanted(w, recs) <= w.captured
    requires at < 2 * w.hole.size && Norm(at, w.hole.size) == Place(w, Wanted(w, recs))
    requires at + WantedLen(w, recs) <= w.hole.size + w.hole.extra
    ensures Fits(w.hole, recs, |w.returned|)
  {
    hide Flat;
    LapAdds(w.released, Wanted(w, recs) - w.released, w.hole.size);
  }

  /** The bytes behind the pointer are the wanted record, which lies in the mapping. */
  lemma TakenRecord(w: World, recs: seq<seq<Byte>>, rx: Rx, at: nat)
    requires |w.returned| < |recs| && CardInv(w, Flat(recs), Wanted(w, recs)) && 0 < WantedLen(w, recs) <= rx.freeSpace
    requires BooksInv(w, Wanted(w, recs), WantedLen(w, recs), rx, at)
    ensures var n := WantedLen(w, recs);
            && at + n <= w.hole.size + w.hole.extra && Fits(w.hole, recs, |w.returned|)
            && View(w.mem, at, n) == recs[|w.returned|]
  {
    var n, wanted := WantedLen(w, recs), Wanted(w, recs);
    hide Lap, Holds, Flat, View, Fits;
    BooksPlace(w, Flat(recs), wanted, n, rx, at);
    TakeBooks(w, wanted, n, rx, at, n);
    RecordAt(recs, |w.returned|);
    TakenFits(w, recs, at);
    hide BooksInv, Registers;
    StreamShows(w, Flat(recs), wanted, wanted, wanted + n, at);
  }

  /** After a record was handed out, the one behind it is wanted. */
  lemma TakenWanted(w: World, recs: seq<seq<Byte>>, rx: Rx, at: nat)
    requires |w.returned| < |recs| && at + WantedLen(w, recs) <= 2 * |w.mem|
    ensures Wanted(Taken(w, rx, at, WantedLen(w, recs)), recs) == Wanted(w, recs) + WantedLen(w, recs)
  {
    hide Flat, View;
    RecordAt(recs, |w.returned|);
  }

  /** Handing out the wanted record from where the books say: the card's part of the invariant, */
  lemma TakenCard(w: World, recs: seq<seq<Byte>>, rx: Rx, at: nat)
    requires |w.returned| < |recs| && CardInv(w, Flat(recs), Wanted(w, recs)) && w.hole.Ok()
    requires BooksInv(w, Wanted(w, recs), WantedLen(w, recs), rx, at) && 0 < WantedLen(w, recs) <= rx.freeSpace
    ensures at + WantedLen(w, recs) <= 2 * |w.mem|
    ensures var v := Taken(w, rx, at, WantedLen(w, recs));
            Wanted(v, recs) == Wanted(w, recs) + WantedLen(w, recs) && CardInv(v, Flat(recs), Wanted(v, recs))
  {
    var n, wanted := WantedLen(w, recs), Wanted(w, recs);
    hide Lap, Holds, Flat, View, Registers, BooksInv, Take, Norm, Start;
    TakeBooks(w, wanted, n, rx, at, n);
    assert |w.mem| == w.hole.size;
    hide CardInv;
    CardMoves(w, Flat(recs), wanted, wanted + n);
    SameCard(w, Taken(w, rx, at, n), Flat(recs), wanted + n);
    TakenWanted(w, recs, rx, at);
    hide Wanted, Taken;
  }

  /** and the reader's. */
  lemma TakenReader(w: World, recs: seq<seq<Byte>>, rx: Rx, at: nat)
    requires |w.returned| < |recs| && w.hole.Ok() && !rx.first && at + WantedLen(w, recs) <= 2 * |w.mem|
    requires BooksInv(w, Wanted(w, recs), WantedLen(w, recs), rx, at) && 0 < WantedLen(w, recs) <= rx.freeSpace
    ensures var v := Taken(w, rx, at, WantedLen(w, recs));
            ReaderInv(v, Wanted(w, recs) + WantedLen(w, recs), WantedLen(v, recs))
  {
    hide Flat, View;
    var n, v := WantedLen(w, recs), Taken(w, rx, at, WantedLen(w, recs));
    TakeBooks(w, Wanted(w, recs), WantedLen(v, recs), rx, at, n);
  }

  /** A call hands out the wanted record, whole, from where its books say. */
  lemma TakenInv(w: World, recs: seq<seq<Byte>>, rx: Rx, at: nat)
    requires GoodRecords(recs) && |w.returned| < |recs| && CardInv(w, Flat(recs), Wanted(w, recs))
    requires BooksInv(w, Wanted(w, recs), WantedLen(w, recs), rx, at) && WantedLen(w, recs) <= rx.freeSpace && !rx.first
    ensures var n := WantedLen(w, recs);
            && at + n <= w.hole.size + w.hole.extra && Fits(w.hole, recs, |w.returned|)
            && View(w.mem, at, n) == recs[|w.returned|]
            && Inv(Taken(w, rx, at, n), recs)
  {
    assert GoodRecord(recs[|w.returned|]) && WantedLen(w, recs) >= RECORD_HEADER && w.hole.Ok();
    hide GoodRecord, GoodRecords, Lap, Holds, Flat, View, Registers, Fits, BooksInv;
    TakenRecord(w, recs, rx, at);
    TakenCard(w, recs, rx, at);
    hide CardInv, ReaderInv;
    TakenReader(w, recs, rx, at);
  }

  lemma CardMoves(w: World, log: seq<Byte>, wanted: nat, next: nat)
    requires CardInv(w, log, wanted) && wanted <= next <= w.captured
    ensures CardInv(w, log, next)
  {
    hide Registers, Holds;
  }

  // ---- The header is read ----

  /** A header that a call believes to be there is that of the wanted record, if it is mapped. */
  lemma HeaderSeen(w: World, recs: seq<seq<Byte>>)
    requires Inv(w, recs) && w.call.Seen?
    ensures |w.returned| < |recs| && w.call.a.next < 2 * w.hole.size
    ensures w.call.a.next + 12 <= w.hole.size + w.hole.extra ==>
              && w.call.a.next + 12 <= 2 * w.hole.size
              && TYPE_MIN <= TypeAt(w.mem, w.call.a.next) <= TYPE_MAX
              && RlenAt(w.mem, w.call.a.next) == WantedLen(w, recs)
  {
    var a, wanted := w.call.a, Wanted(w, recs);
    BooksPlace(w, Flat(recs), wanted, WantedLen(w, recs), a.rx, a.next);
    hide Flat, TypeAt, RlenAt, Lap, Holds, GoodRecords;
    HeaderIsWanted(w, recs, if a.next + 12 <= 2 * w.hole.size then a.next else Norm(a.next, w.hole.size));
  }

  /** How a call goes on from a header. */
  lemma HeaderIs(w: World, recs: seq<seq<Byte>>)
    requires Inv(w, recs) && Enabled(w, recs, Header)
    ensures |w.returned| < |recs|
    ensures var a, n, v := w.call.a, WantedLen(w, recs), HeaderRead(w, Wanted(w, recs));
            if a.next + 12 > w.hole.size + w.hole.extra then v == w.(call := Between(Unmapped(a.next)))
            else if MustAdvance(w.hole, a.rx, n) then v == Free(w, a.next, Wanted(w, recs)).(call := Taking(a, n))
            else a.next + n <= 2 * |w.mem| && v == Taken(w, a.rx, a.next, n)
  {
    HeaderSeen(w, recs);
    if !MustAdvance(w.hole, w.call.a.rx, WantedLen(w, recs)) {
      HeaderFits(w, Wanted(w, recs), WantedLen(w, recs));
    }
    hide Flat, GoodRecords, TypeAt, RlenAt, Holds, Lap, MustAdvance, Norm, View, BooksInv;
  }

  /** A record that need not be waited for lies in the mapping. */
  lemma HeaderFits(w: World, wanted: nat, n: nat)
    requires w.hole.Ok() && w.call.Seen? && ReaderInv(w, wanted, n)
    requires !MustAdvance(w.hole, w.call.a.rx, n)
    ensures w.call.a.next + n <= w.hole.size + w.hole.extra <= 2 * w.hole.size
  {
  }

  /** A call goes on from a header to a record, to another advance, or gives up. */
  lemma HeaderInv(w: World, recs: seq<seq<Byte>>)
    requires Inv(w, recs) && Enabled(w, recs, Header)
    ensures Delivers(w, recs, HeaderRead(w, Wanted(w, recs)))
  {
    var a, n, wanted := w.call.a, WantedLen(w, recs), Wanted(w, recs);
    HeaderIs(w, recs);
    hide HeaderRead, Flat, GoodRecords, Holds, Lap, View, LimitFor;
    if a.next + 12 > w.hole.size + w.hole.extra {
      HeaderUnmapped(w, recs);
    } else if MustAdvance(w.hole, a.rx, n) {
      HeaderFrees(w, recs);
    } else {
      TakenInv(w, recs, a.rx, a.next);
    }
  }

  /** What may happen to the records handed out: nothing, or the wanted one is added. */
  ghost predicate Delivers(w: World, recs: seq<seq<Byte>>, v: World) {
    && Inv(v, recs) && v.hole == w.hole && v.mindata == w.mindata
    && ( || v.returned == w.returned
         || ( && |w.returned| < |recs| && v.returned == w.returned + [recs[|w.returned|]]
              && Fits(w.hole, recs, |w.returned|)))
  }

  lemma HeaderUnmapped(w: World, recs: seq<seq<Byte>>)
    requires Inv(w, recs) && w.call.Seen? && w.call.a.next + 12 > w.hole.size + w.hole.extra
    ensures Inv(w.(call := Between(Unmapped(w.call.a.next))), recs)
  {
    var v := w.(call := Between(Unmapped(w.call.a.next)));
    SameCard(w, v, Flat(recs), Wanted(w, recs));
    hide CardInv, Flat, GoodRecords;
  }

  lemma HeaderFrees(w: World, recs: seq<seq<Byte>>)
    requires Inv(w, recs) && w.call.Seen? && |w.returned| < |recs|
    requires MustAdvance(w.hole, w.call.a.rx, WantedLen(w, recs))
    ensures Inv(Free(w, w.call.a.next, Wanted(w, recs)).(call := Taking(w.call.a, WantedLen(w, recs))), recs)
  {
    var a, n, wanted := w.call.a, WantedLen(w, recs), Wanted(w, recs);
    hide Holds, Lap, Flat, GoodRecords, MustAdvance, LimitFor;
    BooksPlace(w, Flat(recs), wanted, n, a.rx, a.next);
    FreeKeeps(w, Flat(recs), wanted, a.next);
    var v := Free(w, a.next, wanted);
    SameCard(v, v.(call := Taking(a, n)), Flat(recs), wanted);
    hide CardInv, Registers;
  }

  // ---- The look before the record ----

  lemma TakeLookIs(w: World, recs: seq<seq<Byte>>, seen: nat)
    requires Inv(w, recs) && w.call.Taking? && Enabled(w, recs, Look(seen))
    ensures var f, a, n := Shown(w, seen), w.call.a, w.call.rlen; var rx' := a.rx.(freeSpace := f, processed := 0);
            && 0 <= f && n == WantedLen(w, recs)
            && if f < n then LookedAt(w, seen) == w.(rx := rx', call := Between(Again))
               else w.base + n <= 2 * |w.mem| && LookedAt(w, seen) == Taken(w, rx', w.base, n)
  {
    hide Refill, Flat, GoodRecords, View, Holds, Lap;
    RefillIs(w, Flat(recs), Wanted(w, recs), w.call.a.rx, w.call.a.next, w.call.rlen, seen);
    hide Freed, BooksInv, Norm;
  }

  lemma TakeLookInv(w: World, recs: seq<seq<Byte>>, seen: nat)
    requires Inv(w, recs) && w.call.Taking? && Enabled(w, recs, Look(seen))
    ensures Delivers(w, recs, LookedAt(w, seen))
  {
    hide Flat, GoodRecords, LookedAt, Holds, Lap, View;
    var wanted, n := Wanted(w, recs), WantedLen(w, recs);
    TakeLookIs(w, recs, seen);
    var rx' := w.call.a.rx.(freeSpace := Shown(w, seen), processed := 0);
    if Shown(w, seen) < n {
      AdvancedBooks(w, wanted, n, w.rx, w.rx.offset, n, seen);
      SameCard(w, w.(rx := rx', call := Between(Again)), Flat(recs), wanted);
      hide CardInv, Registers, Shown;
    } else {
      AdvancedBooks(w, wanted, n, w.call.a.rx, w.call.a.next, n, seen);
      hide Registers, BooksInv, Freed;
      TakenInv(w, recs, rx', w.base);
    }
  }

  // ---- Runs ----

  ghost function Next(w: World, recs: seq<seq<Byte>>, step: Step): World
    requires Inv(w, recs) && Enabled(w, recs, step)
  {
    match step
    case Capture(b) => Captured(w, b)
    case Ask => Asked(w, Wanted(w, recs))
    case Look(seen) => LookedAt(w, seen)
    case Header => HeaderRead(w, Wanted(w, recs))
  }

  /** Every step keeps the reader in step with the card; it hands out nothing, or the wanted record. */
  lemma NextInv(w: World, recs: seq<seq<Byte>>, step: Step)
    requires Inv(w, recs) && Enabled(w, recs, step)
    ensures Delivers(w, recs, Next(w, recs, step))
  {
    hide Inv, Fits, MustAdvance;
    match step
    case Capture(b) => CaptureInv(w, recs, b);
    case Ask => AskInv(w, recs);
    case Header => HeaderInv(w, recs);
    case Look(seen) =>
      if w.call.Asking? {
        AskLookInv(w, recs, seen);
        AskLookIs(w, recs, seen);
        hide LookedAt;
      } else {
        TakeLookInv(w, recs, seen);
      }
  }

  ghost predicate Runs(w: World, recs: seq<seq<Byte>>, steps: seq<Step>)
    requires Inv(w, recs)
    decreases |steps|
  {
    steps == [] ||
    (Enabled(w, recs, steps[0]) && (NextInv(w, recs, steps[0]); Runs(Next(w, recs, steps[0]), recs, steps[1..])))
  }

  ghost function Run(w: World, recs: seq<seq<Byte>>, steps: seq<Step>): (r: World)
    requires Inv(w, recs) && Runs(w, recs, steps)
    ensures Inv(r, recs)
    decreases |steps|
  {
    if steps == [] then w
    else NextInv(w, recs, steps[0]); Run(Next(w, recs, steps[0]), recs, steps[1..])
  }

  /** Records handed out are the first ones, and each of them fits the mapping where it begins. */
  ghost predicate InOrder(w: World, recs: seq<seq<Byte>>) {
    w.returned <= recs && forall i :: 0 <= i < |w.returned| ==> w.hole.size > 0 && Fits(w.hole, recs, i)
  }

  lemma OrderKept(w: World, v: World, recs: seq<seq<Byte>>)
    requires Inv(w, recs) && InOrder(w, recs) && Delivers(w, recs, v)
    ensures InOrder(v, recs)
  {
    assert w.hole.size > 0;
    hide Inv, Fits;
  }

  lemma {:induction false} RunInOrder(w: World, recs: seq<seq<Byte>>, steps: seq<Step>)
    requires Inv(w, recs) && Runs(w, recs, steps) && InOrder(w, recs)
    ensures InOrder(Run(w, recs, steps), recs)
    ensures Run(w, recs, steps).hole == w.hole && Run(w, recs, steps).mindata == w.mindata
    decreases |steps|
  {
    hide Inv, Next, Enabled, Fits;
    if steps != [] {
      NextInv(w, recs, steps[0]);
      OrderKept(w, Next(w, recs, steps[0]), recs);
      RunInOrder(Next(w, recs, steps[0]), recs, steps[1..]);
    }
  }

  /** Over any run, however the card, the calls and their EAGAINs interleave, the calls hand out exactly
      the records that the card writes, whole, one by one and in order. A record that does not fit what is
      mapped behind the place where it begins is never handed out, nor is any after it. */
  lemma RecordsInOrder(w: World, recs: seq<seq<Byte>>, steps: seq<Step>)
    requires Init(w) && GoodRecords(recs)
    requires (InitInv(w, recs); Runs(w, recs, steps))
    ensures var r := (InitInv(w, recs); Run(w, recs, steps)).returned;
            && |r| <= |recs| && r == recs[..|r|]
            && forall i :: 0 <= i < |recs| && w.hole.size > 0 && !Fits(w.hole, recs, i) ==> |r| <= i
  {
    InitInv(w, recs);
    RunInOrder(w, recs, steps);
    hide Inv, Runs, Run, Fits;
  }

  // ---- When a record is handed out ----

  /** A header leads to a record at once exactly when it is mapped, the call knows of the whole record,
      and its end is not too far from what is freed. */
  lemma HeaderDelivers(w: World, recs: seq<seq<Byte>>)
    requires Inv(w, recs) && Enabled(w, recs, Header)
    ensures var v, a, n := HeaderRead(w, Wanted(w, recs)), w.call.a, WantedLen(w, recs);
            v.returned != w.returned <==>
              a.next + 12 <= w.hole.size + w.hole.extra && n <= a.rx.freeSpace && a.rx.processed + n <= w.hole.extra
  {
    HeaderIs(w, recs);
    hide HeaderRead, Inv;
  }

  /** A look before the record leads to it exactly when the reading shows all of it and it fits what is
      mapped behind the place where it begins; otherwise the call says EAGAIN. */
  lemma LookDelivers(w: World, recs: seq<seq<Byte>>, seen: nat)
    requires Inv(w, recs) && w.call.Taking? && Enabled(w, recs, Look(seen))
    ensures |w.returned| < |recs| && w.hole.size > 0
    ensures var v, k := LookedAt(w, seen), |w.returned|;
            && (v.returned != w.returned <==> Wanted(w, recs) + |recs[k]| <= seen && Fits(w.hole, recs, k))
            && (v.returned == w.returned ==> v.call == Between(Again))
  {
    TakeLookIs(w, recs, seen);
    assert w.released == Wanted(w, recs) && w.base == Lap(w.released, w.hole.size);
    hide LookedAt, Inv, Lap, Flat;
  }

  // ---- The record stays readable ----

  /** The record handed out last is still whole at the pointer `at`, and not yet freed. */
  ghost predicate StillThere(w: World, recs: seq<seq<Byte>>, at: nat)
    requires |recs| >= |w.returned| > 0
  {
    var k := |w.returned| - 1;
    && w.released <= Start(recs, k)
    && at < 2 * w.hole.size && at + |recs[k]| <= w.hole.size + w.hole.extra
    && Norm(at, w.hole.size) == Place(w, Start(recs, k))
  }

  lemma RecordIsReadable(w: World, recs: seq<seq<Byte>>, at: nat)
    requires Inv(w, recs) && |w.returned| > 0 && StillThere(w, recs, at)
    ensures View(w.mem, at, |recs[|w.returned| - 1]|) == recs[|w.returned| - 1]
  {
    var k := |w.returned| - 1;
    hide Flat, Holds, Lap, View, ReaderInv, GoodRecords;
    RecordAt(recs, k);
    StreamShows(w, Flat(recs), Wanted(w, recs), Start(recs, k), Start(recs, k + 1), at);
  }

  /** A record that was handed out is there. */
  lemma TakenStays(w: World, recs: seq<seq<Byte>>, rx: Rx, at: nat)
    requires |w.returned| < |recs| && CardInv(w, Flat(recs), Wanted(w, recs))
    requires BooksInv(w, Wanted(w, recs), WantedLen(w, recs), rx, at) && 0 < WantedLen(w, recs) <= rx.freeSpace
    ensures var n := WantedLen(w, recs);
            && at + n <= 2 * |w.mem| && |recs| >= |Taken(w, rx, at, n).returned| > 0
            && StillThere(Taken(w, rx, at, n), recs, at)
  {
    hide Flat, Holds, Lap, View, GoodRecord;
    BooksPlace(w, Flat(recs), Wanted(w, recs), WantedLen(w, recs), rx, at);
    TakenRecord(w, recs, rx, at);
  }

  lemma DeliveredStays(w: World, recs: seq<seq<Byte>>, step: Step)
    requires Inv(w, recs) && Enabled(w, recs, step) && (step.Header? || (step.Look? && w.call.Taking?))
    requires Next(w, recs, step).call.Between? && Next(w, recs, step).call.reply.Record?
    ensures var v := Next(w, recs, step); |recs| >= |v.returned| > 0 && StillThere(v, recs, v.call.reply.at)
  {
    var wanted, n := Wanted(w, recs), WantedLen(w, recs);
    assert |w.returned| < |recs| ==> n >= RECORD_HEADER;
    hide Flat, Holds, Lap, View, GoodRecords, LookedAt, HeaderRead, StillThere;
    if step.Header? {
      HeaderIs(w, recs);
      TakenStays(w, recs, w.call.a.rx, w.call.a.next);
    } else {
      TakeLookIs(w, recs, step.seen);
      AdvancedBooks(w, wanted, n, w.call.a.rx, w.call.a.next, n, step.seen);
      TakenStays(w, recs, w.call.a.rx.(freeSpace := Shown(w, step.seen), processed := 0), w.base);
    }
  }

  lemma CaptureLeavesRecord(w: World, recs: seq<seq<Byte>>, b: Byte, at: nat)
    requires Inv(w, recs) && Enabled(w, recs, Capture(b)) && |w.returned| > 0 && StillThere(w, recs, at)
    ensures StillThere(Captured(w, b), recs, at)
    ensures var n := |recs[|w.returned| - 1]|; View(Captured(w, b).mem, at, n) == View(w.mem, at, n)
  {
    CaptureInv(w, recs, b);
    hide Inv, Flat, View;
    RecordIsReadable(w, recs, at);
    RecordIsReadable(Captured(w, b), recs, at);
  }

  /** Until the next call begins, whatever the card writes, the record handed out last stays whole at its
      pointer: the card stops at the limit register. */
  lemma {:induction false} RecordStays(w: World, recs: seq<seq<Byte>>, steps: seq<Step>, at: nat)
    requires Inv(w, recs) && w.call.Between? && |w.returned| > 0 && StillThere(w, recs, at)
    requires Runs(w, recs, steps) && forall i :: 0 <= i < |steps| ==> steps[i] != Ask
    ensures var r, n := Run(w, recs, steps), |recs[|w.returned| - 1]|;
            && r.returned == w.returned && r.call == w.call && StillThere(r, recs, at)
            && at + n <= 2 * |r.mem| && View(r.mem, at, n) == recs[|w.returned| - 1]
    decreases |steps|
  {
    if steps == [] {
      RecordIsReadable(w, recs, at);
    } else {
      hide Inv, StillThere, View;
      assert steps[0] != Ask;
      CaptureLeavesRecord(w, recs, steps[0].b, at);
      NextInv(w, recs, steps[0]);
      RecordStays(Next(w, recs, steps[0]), recs, steps[1..], at);
    }
  }
}
