/** Inline forwarding: records are captured into a hole, processed there, and transmitted from the
    same hole. dag_rx_stream_next_inline hands them out and lets the card reuse only what it has
    already transmitted; the program commits each record for transmission when it is done with it. */
module Inline {
  import opened Ring
  import opened Pbm
  import opened Wrappers
  import opened RxStream
  import TxStream

  // ---- The call ----

  /** The limit that a reading of the transmit register gives for the receive side. */
  function LimitBehind(h: Hole, transmitted: nat): nat {
    var offset := I32(transmitted - h.bus - SAFETY_WINDOW);
    U32(h.bus + if offset < 0 then I32(offset + h.size) else offset)
  }

  /** The bytes that a reading of the record register shows ahead of `offset`. */
  function Ahead(h: Hole, offset: nat, reading: nat): int {
    var free := I32(reading - (offset + h.bus));
    if free < 0 then I32(free + h.size) else free
  }

  lemma LimitPlace(h: Hole, place: nat)
    requires h.Ok() && place < h.size
    ensures LimitBehind(h, h.bus + place) == h.bus + Norm(place + h.size - 8, h.size)
  {
  }

  /** Less than a lap ahead, the count is exact. */
  lemma AheadExact(h: Hole, offset: nat, d: nat)
    requires h.Ok() && offset < h.size && d < h.size
    ensures Ahead(h, offset, h.bus + Norm(offset + d, h.size)) == d
  {
  }

  /** The cached count is signed, mindata is not: C compares them as unsigned values. */
  predicate MustWait(h: Hole, mindata: nat, rx: Rx) {
    U32(rx.freeSpace) < mindata || rx.processed + RECORD_HEADER > h.extra
  }

  datatype Waited = Waited(rx: Rx, limit: Option<nat>, ready: bool)

  /** The waiting loop: `polls` are pairs of readings of the transmit and of the record register;
      `last` is the transmit reading of the turn in which the call times out. */
  function Wait(h: Hole, mindata: nat, rx: Rx, limit: Option<nat>, polls: seq<(nat, nat)>, last: nat): Waited
    decreases |polls|
  {
    if !MustWait(h, mindata, rx) then Waited(rx, limit, true)
    else if polls == [] then Waited(rx, Some(LimitBehind(h, last)), false)
    else
      var rx' := rx.(freeSpace := Ahead(h, rx.offset, polls[0].1), processed := 0);
      Wait(h, mindata, rx', Some(LimitBehind(h, polls[0].0)), polls[1..], last)
  }

  /** Moving over a record of `rlen` bytes. */
  function Forward(h: Hole, rx: Rx, rlen: nat): Rx {
    rx.(freeSpace := rx.freeSpace - rlen, processed := rx.processed + rlen, offset := Norm(rx.offset + rlen, h.size))
  }

  /** dag_rx_stream_next_inline. */
  function NextInline(h: Hole, mindata: nat, rx: Rx, mem: seq<Byte>, polls: seq<(nat, nat)>, last: nat): Outcome
    requires h.Ok() && |mem| == h.size
  {
    var w := Wait(h, mindata, Begin(rx), None, polls, last);
    if !w.ready then Outcome(w.rx, w.limit, Again)
    else if w.rx.offset + 12 > h.size + h.extra then Outcome(w.rx, w.limit, Unmapped(w.rx.offset))
    else if !(TYPE_MIN <= TypeAt(mem, w.rx.offset) <= TYPE_MAX) then Outcome(w.rx, w.limit, BadType)
    else
      var rlen := RlenAt(mem, w.rx.offset);
      Outcome(Forward(h, w.rx, rlen), w.limit, Record(w.rx.offset, rlen))
  }

  /** An offset inside the hole never makes the call look for a header outside the mapping: its guard
      leaves room for one. */
  lemma NeverUnmapped(h: Hole, mindata: nat, rx: Rx, mem: seq<Byte>, polls: seq<(nat, nat)>, last: nat)
    requires h.Ok() && |mem| == h.size && Begin(rx).offset < h.size
    ensures !NextInline(h, mindata, rx, mem, polls, last).reply.Unmapped?
  {
    hide TypeAt, RlenAt, Ahead, LimitBehind;
    ReadyHasRoom(h, mindata, Begin(rx), None, polls, last);
  }

  lemma {:induction false} ReadyHasRoom(h: Hole, mindata: nat, rx: Rx, limit: Option<nat>, polls: seq<(nat, nat)>,
      last: nat)
    ensures var w := Wait(h, mindata, rx, limit, polls, last); w.rx.offset == rx.offset && (w.ready ==> h.extra >= 16)
    decreases |polls|
  {
    hide Ahead, LimitBehind;
    if MustWait(h, mindata, rx) && polls != [] {
      var rx' := rx.(freeSpace := Ahead(h, rx.offset, polls[0].1), processed := 0);
      ReadyHasRoom(h, mindata, rx', Some(LimitBehind(h, polls[0].0)), polls[1..], last);
    }
  }

  /** The receive stream of a forwarding pair. */
  class Stream {
    const hole: Hole
    const mindata: nat
    const limitPtr: Register
    var offset: nat
    var freeSpace: int
    var processed: nat
    var isFirstTime: bool
    var lastBusBottom: nat

    constructor (hole: Hole, mindata: nat, limitPtr: Register)
      ensures this.hole == hole && this.mindata == mindata && this.limitPtr == limitPtr
      ensures State() == Rx(0, 0, 0, true)
    {
      this.hole, this.mindata, this.limitPtr := hole, mindata, limitPtr;
      offset, freeSpace, processed, isFirstTime, lastBusBottom := 0, 0, 0, true, 0;
    }

    function State(): Rx
      reads this
    {
      Rx(offset, freeSpace, processed, isFirstTime)
    }

    /** Moves the limit up to what the card has transmitted. */
    method UpdateLimit(transmitted: nat)
      modifies this`lastBusBottom, limitPtr
      ensures limitPtr.value == LimitBehind(hole, transmitted)
    {
      var off := I32(transmitted - hole.bus - SAFETY_WINDOW);
      if off < 0 {
        off := I32(off + hole.size);
      }
      lastBusBottom := U32(hole.bus + off);
      limitPtr.value := lastBusBottom;
    }

    /** One turn of the waiting loop: moves the limit, then counts the bytes that can be read. */
    method Turn(transmitted: nat, captured: nat)
      modifies this, limitPtr
      ensures limitPtr.value == LimitBehind(hole, transmitted)
      ensures State() == old(State()).(freeSpace := Ahead(hole, offset, captured), processed := 0)
    {
      UpdateLimit(transmitted);
      freeSpace := I32(captured - (offset + hole.bus));
      if freeSpace < 0 {
        freeSpace := I32(freeSpace + hole.size);
      }
      processed := 0;
    }

    /** The waiting loop. */
    method WaitForRecord(polls: seq<(nat, nat)>, last: nat) returns (ready: bool)
      modifies this, limitPtr
      ensures var w := Wait(hole, mindata, old(State()), None, polls, last);
              && State() == w.rx && ready == w.ready
              && limitPtr.value == if w.limit.Some? then w.limit.value else old(limitPtr.value)
      ensures ready ==> !MustWait(hole, mindata, State())
    {
      var i := 0;
      ghost var limit: Option<nat> := None;
      while U32(freeSpace) < mindata || processed + RECORD_HEADER > hole.extra
        invariant i <= |polls|
        invariant limitPtr.value == if limit.Some? then limit.value else old(limitPtr.value)
        invariant Wait(hole, mindata, old(State()), None, polls, last)
               == Wait(hole, mindata, State(), limit, polls[i..], last)
        decreases |polls| - i
      {
        if i == |polls| {
          UpdateLimit(last);
          return false;
        }
        assert polls[i..][1..] == polls[i + 1..];
        Turn(polls[i].0, polls[i].1);
        limit := Some(limitPtr.value);
        i := i + 1;
      }
      return true;
    }

    /** dag_rx_stream_next_inline. Its second waiting loop has the guard of the first one and comes
        after it, so that it is never entered. */
    method NextRecordInline(buf: array<Byte>, polls: seq<(nat, nat)>, last: nat) returns (r: Reply)
      requires hole.Ok() && buf.Length == hole.size
      modifies this, limitPtr
      ensures var o := NextInline(hole, mindata, old(State()), buf[..], polls, last);
              && State() == o.rx && r == o.reply
              && limitPtr.value == if o.limit.Some? then o.limit.value else old(limitPtr.value)
    {
      if isFirstTime {
        offset, processed, freeSpace, isFirstTime := 0, 0, 0, false;
      }
      var ready := WaitForRecord(polls, last);
      if !ready {
        return Again;
      }
      var at := offset;
      if at + 12 > hole.size + hole.extra {
        return Unmapped(at);
      }
      var header := View(buf[..], at, 12);
      var recordType := header[8] % 128;
      if recordType < TYPE_MIN || recordType > TYPE_MAX {
        return BadType;
      }
      var rlen := BigEndian16(header[10], header[11]);
      assert !MustWait(hole, mindata, State());
      freeSpace := freeSpace - rlen;
      processed := processed + rlen;
      offset := offset + rlen;
      if offset >= hole.size {
        offset := offset - hole.size;
      }
      return Record(at, rlen);
    }
  }

  // ---- The protocol ----

  /** The two registers of each side, the places of the card, and what the two streams keep. The counts
      of bytes that went through each station since the start are for the reader of this model: neither
      the card nor the program looks at them. */
  datatype World = World(
    hole: Hole,
    mindata: nat,
    card: nat,              // where the card writes the next byte; its receive register shows this place
    sent: nat,              // the place up to which it has sent; its transmit register shows this place
    limit: nat,             // the limit register of the receive side
    txLimit: nat,           // the limit register of the transmit side
    rx: Rx,
    tx: TxStream.Tx,
    pending: seq<nat>,      // lengths of the records captured and not handed out
    open: nat,              // length of the record handed out and not committed, or 0
    known: nat,             // how many records the last reading of the receive register showed
    captured: nat,
    processed: nat,
    looked: nat,            // those processed when the call last looked
    committed: nat,
    transmitted: nat,
    freed: nat,             // transmitted bytes that the limit register tells the card about,
    base: nat)              // and the place that this is
  {
    function PlaceOf(k: nat): nat
      requires freed <= k
    {
      Norm(base + (k - freed), hole.size)
    }
  }

  /** How far it is from one place forward to another. */
  function Gap(from: nat, to: nat, size: nat): int {
    if to >= from then to - from else to + size - from
  }

  /** The distance from a place to what a register shows; nothing may be done with a register that
      shows no place of the hole. */
  function UpTo(h: Hole, place: nat, register: nat): int {
    if h.bus <= register < h.bus + h.size then Gap(place, register - h.bus, h.size) else 0
  }

  function Sum(xs: seq<nat>): nat {
    if xs == [] then 0 else xs[0] + Sum(xs[1..])
  }

  lemma {:induction false} SumSplit(xs: seq<nat>, j: nat)
    requires j <= |xs|
    ensures Sum(xs) == Sum(xs[..j]) + Sum(xs[j..])
  {
    if j == 0 {
      assert xs[..0] == [] && xs[0..] == xs;
    } else {
      SumSplit(xs[1..], j - 1);
      assert xs[..j][1..] == xs[1..][..j - 1];
      assert xs[1..][j - 1..] == xs[j..];
    }
  }

  datatype Step =
    | Capture(n: nat)            // the card writes a whole record of n bytes
    | Transmit(n: nat)           // the card sends n bytes
    | Relimit(seen: nat)         // the call reads the transmit register and writes the limit register
    | Poll(seen: nat)            // the call reads the receive register, which shows `seen` records
    | HandOut                    // the call returns a record
    | Commit                     // the program commits the record it was given

  /** The call has to look: it knows of fewer bytes than it waits for, or the bytes handed out since the
      last look leave no room for another header in what is mapped twice. */
  predicate Short(w: World)
    requires w.known <= |w.pending|
  {
    Sum(w.pending[..w.known]) < w.mindata || w.processed - w.looked + 16 > w.hole.extra
  }

  /** The card moves its places by whole records, never past the limit register of the side. A reading
      may be out of date: it shows a place where the card was since the reading before. The program
      commits a record before it asks for the next. */
  predicate Enabled(w: World, step: Step) {
    match step
    case Capture(n) => n >= RECORD_HEADER && n <= UpTo(w.hole, w.card, w.limit)
    case Transmit(n) => n <= UpTo(w.hole, w.sent, w.txLimit)
    case Relimit(seen) => w.freed <= seen <= w.transmitted
    case Poll(seen) => seen <= |w.pending| && w.freed <= w.processed
    case HandOut => w.open == 0 && w.known <= |w.pending| && !Short(w)
    case Commit => w.open > 0
  }

  function Captured(w: World, n: nat): World {
    w.(card := Norm(w.card + n, w.hole.size), pending := w.pending + [n], captured := w.captured + n)
  }

  function Transmitted(w: World, n: nat): World {
    w.(sent := Norm(w.sent + n, w.hole.size), transmitted := w.transmitted + n)
  }

  /** What the call reads of the transmit register. */
  function SentReading(w: World, seen: nat): nat
    requires w.freed <= seen
  {
    w.hole.bus + w.PlaceOf(seen)
  }

  function Relimited(w: World, seen: nat): World
    requires w.freed <= seen
  {
    w.(limit := LimitBehind(w.hole, SentReading(w, seen)), freed := seen, base := w.PlaceOf(seen))
  }

  /** What the call reads of the receive register. */
  function SeenReading(w: World, seen: nat): nat
    requires seen <= |w.pending| && w.freed <= w.processed
  {
    w.hole.bus + w.PlaceOf(w.processed + Sum(w.pending[..seen]))
  }

  function Polled(w: World, seen: nat): World
    requires seen <= |w.pending| && w.freed <= w.processed
  {
    w.(known := seen, looked := w.processed,
       rx := w.rx.(freeSpace := Ahead(w.hole, w.rx.offset, SeenReading(w, seen)), processed := 0))
  }

  /** Handing out the next record moves the receive offset over it. */
  function HandedOut(w: World): World
    requires w.pending != [] && w.known > 0
  {
    w.(rx := Forward(w.hole, w.rx, w.pending[0]), open := w.pending[0], pending := w.pending[1..],
       known := w.known - 1, processed := w.processed + w.pending[0])
  }

  function CommittedOpen(w: World): World {
    var tx := TxStream.Commit(w.tx, w.open);
    w.(tx := tx, txLimit := tx.lastBottom, committed := w.committed + w.open, open := 0)
  }

  /** Everything transmitted was committed, everything committed processed, everything processed
      captured, and the card is short of a lap ahead of what it was told to be free. */
  ghost predicate InSequence(w: World) {
    && w.freed <= w.transmitted <= w.committed <= w.processed <= w.captured
    && w.captured + SAFETY_WINDOW <= w.freed + w.hole.size
  }

  /** Places, offsets and registers are the counts, modulo the size of the hole. */
  ghost predicate Places(w: World)
    requires InSequence(w)
  {
    && w.card == w.PlaceOf(w.captured)
    && w.rx.offset == w.PlaceOf(w.processed)
    && w.tx.offset == w.PlaceOf(w.committed)
    && w.sent == w.PlaceOf(w.transmitted)
    && w.limit == w.hole.bus + Norm(w.base + w.hole.size - SAFETY_WINDOW, w.hole.size)
    && w.txLimit == w.hole.bus + w.tx.offset
  }

  ghost predicate Inv(w: World) {
    && w.hole.Ok() && w.base < w.hole.size
    && w.tx.Ok() && w.tx.size == w.hole.size && w.tx.bus == w.hole.bus
    && InSequence(w) && Places(w)
    && (forall i :: 0 <= i < |w.pending| ==> w.pending[i] >= RECORD_HEADER)
    && w.processed + Sum(w.pending) == w.captured && w.committed + w.open == w.processed
    && w.known <= |w.pending| && w.rx.freeSpace == Sum(w.pending[..w.known])
    && w.looked <= w.processed && w.rx.processed == w.processed - w.looked
    && !w.rx.first
  }

  predicate Init(w: World) {
    && w.hole.Ok() && w.rx == Rx(0, 0, 0, false)
    && w.tx == TxStream.Tx(w.hole.size, w.hole.bus, 0, 0, w.hole.bus, w.hole.bus)
    && w.card == w.sent == 0 && w.pending == [] && w.open == w.known == 0
    && w.limit == w.hole.bus + w.hole.size - SAFETY_WINDOW && w.txLimit == w.hole.bus
    && w.captured == w.processed == w.looked == w.committed == w.transmitted == w.freed == w.base == 0
  }

  lemma InitInv(w: World)
    requires Init(w)
    ensures Inv(w)
  {
  }

  /** Two places less than a lap after a third are as far apart as their distances from it. */
  lemma GapIs(base: nat, a: nat, b: nat, size: nat)
    requires base < size && a <= b < size
    ensures Gap(Norm(base + a, size), Norm(base + b, size), size) == b - a
  {
  }

  /** What the limit register leaves the card is the hole less what is not freed and the window. */
  lemma RoomOfCard(w: World)
    requires Inv(w)
    ensures UpTo(w.hole, w.card, w.limit) == w.freed + w.hole.size - SAFETY_WINDOW - w.captured
    ensures UpTo(w.hole, w.sent, w.txLimit) == w.committed - w.transmitted
  {
    GapIs(w.base, w.captured - w.freed, w.hole.size - SAFETY_WINDOW, w.hole.size);
    GapIs(w.base, w.transmitted - w.freed, w.committed - w.freed, w.hole.size);
    hide Gap, Sum;
  }

  lemma SumAppend(xs: seq<nat>, n: nat)
    ensures Sum(xs + [n]) == Sum(xs) + n
  {
    SumSplit(xs + [n], |xs|);
    assert (xs + [n])[..|xs|] == xs && (xs + [n])[|xs|..] == [n];
    assert Sum([n]) == n + Sum([][..]);
  }

  lemma CaptureInv(w: World, n: nat)
    requires Inv(w) && Enabled(w, Capture(n))
    ensures Inv(Captured(w, n))
  {
    hide Sum, UpTo;
    RoomOfCard(w);
    SumAppend(w.pending, n);
    assert (w.pending + [n])[..w.known] == w.pending[..w.known];
    NormNorm(w.base, w.captured - w.freed, n, w.hole.size);
    hide Norm;
  }

  lemma TransmitInv(w: World, n: nat)
    requires Inv(w) && Enabled(w, Transmit(n))
    ensures Inv(Transmitted(w, n))
  {
    RoomOfCard(w);
    hide UpTo, Sum;
    NormNorm(w.base, w.transmitted - w.freed, n, w.hole.size);
    hide Norm;
  }

  lemma RelimitInv(w: World, seen: nat)
    requires Inv(w) && Enabled(w, Relimit(seen))
    ensures Inv(Relimited(w, seen))
  {
    hide LimitBehind, Sum;
    LimitPlace(w.hole, w.PlaceOf(seen));
    RelimitPlaces(w, seen);
  }

  lemma RelimitPlaces(w: World, seen: nat)
    requires Inv(w) && Enabled(w, Relimit(seen))
    ensures w.PlaceOf(seen) < w.hole.size
    ensures forall k | seen <= k <= w.captured :: Relimited(w, seen).PlaceOf(k) == w.PlaceOf(k)
  {
    forall k | seen <= k <= w.captured
      ensures Relimited(w, seen).PlaceOf(k) == w.PlaceOf(k)
    {
      NormNorm(w.base, seen - w.freed, k - seen, w.hole.size);
    }
  }

  /** The count that the call makes from its reading is that of the captured bytes which it shows. */
  lemma PollSees(w: World, seen: nat)
    requires Inv(w) && Enabled(w, Poll(seen))
    ensures Polled(w, seen).rx == w.rx.(freeSpace := Sum(w.pending[..seen]), processed := 0)
  {
    hide Sum, Ahead;
    SumSplit(w.pending, seen);
    NormNorm(w.base, w.processed - w.freed, Sum(w.pending[..seen]), w.hole.size);
    AheadExact(w.hole, w.rx.offset, Sum(w.pending[..seen]));
    hide Norm;
  }

  lemma PollInv(w: World, seen: nat)
    requires Inv(w) && Enabled(w, Poll(seen))
    ensures Inv(Polled(w, seen))
  {
    PollSees(w, seen);
    hide Ahead, Sum, Norm, SeenReading;
  }

  /** A record is handed out only when it has been captured whole, as long as mindata is not 0. */
  lemma HandOutIsCaptured(w: World)
    requires Inv(w) && Enabled(w, HandOut) && w.mindata > 0
    ensures w.known > 0 && w.pending != [] && w.pending[0] <= w.rx.freeSpace
    ensures w.processed + w.pending[0] <= w.captured
  {
    if w.known > 0 {
      SumSplit(w.pending[..w.known], 1);
      SumSplit(w.pending, 1);
      assert w.pending[..w.known][..1] == w.pending[..1] == [w.pending[0]];
      assert Sum([w.pending[0]]) == w.pending[0];
    }
  }

  lemma HandOutInv(w: World)
    requires Inv(w) && Enabled(w, HandOut) && w.mindata > 0
    ensures w.known > 0 && w.pending != [] && Inv(HandedOut(w))
  {
    HandOutIsCaptured(w);
    assert w.pending[..w.known][1..] == w.pending[1..][..w.known - 1];
    NormNorm(w.base, w.processed - w.freed, w.pending[0], w.hole.size);
  }

  lemma CommitInv(w: World)
    requires Inv(w) && Enabled(w, Commit)
    ensures Inv(CommittedOpen(w))
  {
    TxStream.CommitPlace(w.tx, w.open);
    NormNorm(w.base, w.committed - w.freed, w.open, w.hole.size);
    hide Sum, TxStream.Commit;
  }

  ghost function Next(w: World, step: Step): World
    requires Inv(w) && Enabled(w, step) && w.mindata > 0
  {
    match step
    case Capture(n) => Captured(w, n)
    case Transmit(n) => Transmitted(w, n)
    case Relimit(seen) => Relimited(w, seen)
    case Poll(seen) => Polled(w, seen)
    case HandOut => HandOutInv(w); HandedOut(w)
    case Commit => CommittedOpen(w)
  }

  lemma NextInv(w: World, step: Step)
    requires Inv(w) && Enabled(w, step) && w.mindata > 0
    ensures Inv(Next(w, step)) && Next(w, step).mindata == w.mindata
  {
    hide Inv, Sum, Norm, Ahead, LimitBehind, MustWait, UpTo;
    match step
    case Capture(n) => CaptureInv(w, n);
    case Transmit(n) => TransmitInv(w, n);
    case Relimit(seen) => RelimitInv(w, seen);
    case Poll(seen) => PollInv(w, seen);
    case HandOut => HandOutInv(w);
    case Commit => CommitInv(w);
  }

  ghost predicate Runs(w: World, steps: seq<Step>)
    requires Inv(w) && w.mindata > 0
    decreases |steps|
  {
    steps == [] || (Enabled(w, steps[0]) && (NextInv(w, steps[0]); Runs(Next(w, steps[0]), steps[1..])))
  }

  ghost function Run(w: World, steps: seq<Step>): (r: World)
    requires Inv(w) && w.mindata > 0 && Runs(w, steps)
    ensures Inv(r) && r.mindata == w.mindata
    decreases |steps|
  {
    if steps == [] then w
    else NextInv(w, steps[0]); Run(Next(w, steps[0]), steps[1..])
  }

  lemma {:induction false} RunSplit(w: World, a: seq<Step>, b: seq<Step>)
    requires Inv(w) && w.mindata > 0 && Runs(w, a + b)
    ensures Runs(w, a) && Runs(Run(w, a), b) && Run(w, a + b) == Run(Run(w, a), b)
    decreases |a|
  {
    hide Next, Enabled, Inv;
    if a == [] {
      assert a + b == b;
    } else {
      assert (a + b)[0] == a[0] && (a + b)[1..] == a[1..] + b;
      NextInv(w, a[0]);
      RunSplit(Next(w, a[0]), a[1..], b);
    }
  }

  lemma OneStep(w: World, step: Step)
    requires Inv(w) && w.mindata > 0
    ensures Runs(w, [step]) <==> Enabled(w, step)
    ensures Enabled(w, step) ==> Run(w, [step]) == Next(w, step) && Inv(Next(w, step))
  {
    hide Next, Enabled, Inv;
    assert [step][1..] == [];
    if Enabled(w, step) {
      NextInv(w, step);
    }
  }

  // ---- A call is a run, whatever the card does in between ----

  predicate IsCardStep(step: Step) {
    step.Capture? || step.Transmit?
  }

  ghost predicate AllCard(steps: seq<Step>) {
    forall i :: 0 <= i < |steps| ==> IsCardStep(steps[i])
  }

  /** What the call keeps while the card works. */
  predicate SameCall(r: World, w: World) {
    r.hole == w.hole && r.open == w.open
  }

  /** The call notices nothing of the card's steps but what the registers show. */
  lemma {:induction false} CardRun(w: World, env: seq<Step>)
    requires Inv(w) && w.mindata > 0 && Runs(w, env) && AllCard(env)
    ensures var r := Run(w, env); r.rx == w.rx && r.limit == w.limit && SameCall(r, w)
    decreases |env|
  {
    if env != [] {
      NextInv(w, env[0]);
      CardRun(Next(w, env[0]), env[1..]);
    }
  }

  /** A turn of the waiting loop: the card works, the transmit register shows byte `sent`, the card works
      again, and the receive register shows `seen` records. */
  datatype Look = Look(before: seq<Step>, sent: nat, between: seq<Step>, seen: nat)

  function StepsOf(look: Look): seq<Step> {
    look.before + [Relimit(look.sent)] + look.between + [Poll(look.seen)]
  }

  /** The steps of a waiting loop, turn by turn. */
  function LoopSteps(looks: seq<Look>): seq<Step> {
    if looks == [] then [] else StepsOf(looks[0]) + LoopSteps(looks[1..])
  }

  ghost predicate CardOnly(looks: seq<Look>) {
    forall i :: 0 <= i < |looks| ==> AllCard(looks[i].before) && AllCard(looks[i].between)
  }

  /** The stages of a turn. */
  lemma LookStages(w: World, look: Look)
    requires Inv(w) && w.mindata > 0 && Runs(w, StepsOf(look))
    ensures Runs(w, look.before)
    ensures var w1 := Run(w, look.before);
            && Enabled(w1, Relimit(look.sent))
            && var w2 := Next(w1, Relimit(look.sent));
               && Inv(w2) && w2.mindata > 0 && Runs(w2, look.between)
               && var w3 := Run(w2, look.between);
                  Enabled(w3, Poll(look.seen)) && Run(w, StepsOf(look)) == Next(w3, Poll(look.seen))
  {
    hide Inv, Runs, Run, Enabled, Next;
    RunSplit(w, look.before + [Relimit(look.sent)] + look.between, [Poll(look.seen)]);
    RunSplit(w, look.before + [Relimit(look.sent)], look.between);
    RunSplit(w, look.before, [Relimit(look.sent)]);
    var w1 := Run(w, look.before);
    OneStep(w1, Relimit(look.sent));
    NextInv(w1, Relimit(look.sent));
    OneStep(Run(Next(w1, Relimit(look.sent)), look.between), Poll(look.seen));
  }

  /** The states in which a turn reads the two registers. */
  ghost function AtRelimit(w: World, look: Look): (r: World)
    requires Inv(w) && w.mindata > 0 && Runs(w, StepsOf(look))
    ensures Inv(r) && r.mindata > 0 && Enabled(r, Relimit(look.sent))
  {
    LookStages(w, look);
    Run(w, look.before)
  }

  ghost function AtPoll(w: World, look: Look): (r: World)
    requires Inv(w) && w.mindata > 0 && Runs(w, StepsOf(look))
    ensures Inv(r) && r.mindata > 0 && Enabled(r, Poll(look.seen))
  {
    LookStages(w, look);
    Run(Next(AtRelimit(w, look), Relimit(look.sent)), look.between)
  }

  /** What the two registers show in a turn. */
  ghost function PollOf(w: World, look: Look): (nat, nat)
    requires Inv(w) && w.mindata > 0 && Runs(w, StepsOf(look))
  {
    (SentReading(AtRelimit(w, look), look.sent), SeenReading(AtPoll(w, look), look.seen))
  }

  lemma LoopSplit(w: World, looks: seq<Look>)
    requires Inv(w) && w.mindata > 0 && looks != [] && Runs(w, LoopSteps(looks))
    ensures Runs(w, StepsOf(looks[0])) && Runs(Run(w, StepsOf(looks[0])), LoopSteps(looks[1..]))
    ensures Run(w, LoopSteps(looks)) == Run(Run(w, StepsOf(looks[0])), LoopSteps(looks[1..]))
  {
    hide Inv, Runs, Run, StepsOf;
    RunSplit(w, StepsOf(looks[0]), LoopSteps(looks[1..]));
  }

  /** What the registers show in the turns of a waiting loop. */
  ghost function Polls(w: World, looks: seq<Look>): (polls: seq<(nat, nat)>)
    requires Inv(w) && w.mindata > 0 && Runs(w, LoopSteps(looks))
    ensures |polls| == |looks|
    decreases |looks|
  {
    if looks == [] then []
    else
      LoopSplit(w, looks);
      [PollOf(w, looks[0])] + Polls(Run(w, StepsOf(looks[0])), looks[1..])
  }

  /** The guard of the loop: a turn is made because the state before it lacks something. */
  ghost predicate Lacks(w: World, looks: seq<Look>)
    requires Inv(w) && w.mindata > 0 && Runs(w, LoopSteps(looks))
    decreases |looks|
  {
    looks == [] ||
    (Short(w) && (LoopSplit(w, looks); Lacks(Run(w, StepsOf(looks[0])), looks[1..])))
  }

  /** What the code tests with its counters is that. */
  lemma GuardIsShort(w: World)
    requires Inv(w)
    ensures MustWait(w.hole, w.mindata, w.rx) <==> Short(w)
  {
    SumSplit(w.pending, w.known);
    hide Sum;
  }

  lemma RelimitStep(w: World, sent: nat)
    requires Inv(w) && w.mindata > 0 && Enabled(w, Relimit(sent))
    ensures var r := Next(w, Relimit(sent));
            Inv(r) && r.limit == LimitBehind(w.hole, SentReading(w, sent)) && r.rx == w.rx && SameCall(r, w)
  {
    hide Inv, LimitBehind, Sum, Norm, SentReading;
    NextInv(w, Relimit(sent));
  }

  lemma PollStep(w: World, seen: nat)
    requires Inv(w) && w.mindata > 0 && Enabled(w, Poll(seen))
    ensures var r := Next(w, Poll(seen));
            && Inv(r) && r.limit == w.limit && SameCall(r, w)
            && r.rx == w.rx.(freeSpace := Ahead(w.hole, w.rx.offset, SeenReading(w, seen)), processed := 0)
  {
    hide Inv, Ahead, Sum, Norm, SeenReading;
    NextInv(w, Poll(seen));
  }

  /** A turn as a run leaves what the call computes from the two readings. */
  lemma LookIsTurn(w: World, look: Look)
    requires Inv(w) && w.mindata > 0 && Runs(w, StepsOf(look)) && AllCard(look.before) && AllCard(look.between)
    ensures var r, poll := Run(w, StepsOf(look)), PollOf(w, look);
            && r.rx == w.rx.(freeSpace := Ahead(w.hole, w.rx.offset, poll.1), processed := 0)
            && r.limit == LimitBehind(w.hole, poll.0) && SameCall(r, w)
  {
    hide Inv, Runs, Run, Enabled, Next, Ahead, LimitBehind, AllCard, StepsOf, SentReading, SeenReading;
    LookStages(w, look);
    var w1 := Run(w, look.before);
    CardRun(w, look.before);
    RelimitStep(w1, look.sent);
    var w2 := Next(w1, Relimit(look.sent));
    CardRun(w2, look.between);
    PollStep(Run(w2, look.between), look.seen);
  }

  /** What the loop reports, and the call keeps, when it ends in state `r`; `limit` is what it had
      written before this state, if `looks` made no turn. */
  predicate EndsIn(r: World, call: Waited, limit: Option<nat>, last: nat)
    requires r.known <= |r.pending|
  {
    call == if Short(r) then Waited(r.rx, Some(LimitBehind(r.hole, last)), false)
            else Waited(r.rx, limit, true)
  }

  lemma WaitNothing(w: World, limit: Option<nat>, last: nat)
    requires Inv(w)
    ensures EndsIn(w, Wait(w.hole, w.mindata, w.rx, limit, [], last), limit, last)
  {
    GuardIsShort(w);
    hide Inv, Short, MustWait;
  }

  lemma WaitTurn(w: World, limit: Option<nat>, poll: (nat, nat), rest: seq<(nat, nat)>, rx: Rx, last: nat)
    requires MustWait(w.hole, w.mindata, w.rx)
    requires rx == w.rx.(freeSpace := Ahead(w.hole, w.rx.offset, poll.1), processed := 0)
    ensures Wait(w.hole, w.mindata, w.rx, limit, [poll] + rest, last)
         == Wait(w.hole, w.mindata, rx, Some(LimitBehind(w.hole, poll.0)), rest, last)
  {
    hide MustWait, Ahead, LimitBehind;
    assert ([poll] + rest)[1..] == rest;
  }

  /** The waiting loop over the readings it makes, with the card working before each of them, ends in
      the state of that run. */
  lemma {:induction false} WaitIsRun(w: World, limit: Option<nat>, looks: seq<Look>, last: nat)
    requires Inv(w) && w.mindata > 0 && CardOnly(looks) && Runs(w, LoopSteps(looks)) && Lacks(w, looks)
    ensures var r := Run(w, LoopSteps(looks));
            var call := Wait(w.hole, w.mindata, w.rx, limit, Polls(w, looks), last);
            SameCall(r, w) && EndsIn(r, call, if looks == [] then limit else Some(r.limit), last)
    decreases |looks|
  {
    hide Short, MustWait, Ahead, LimitBehind, Inv, Enabled, Next, StepsOf, PollOf, EndsIn, Wait;
    if looks == [] {
      WaitNothing(w, limit, last);
    } else {
      GuardIsShort(w);
      LoopSplit(w, looks);
      LookIsTurn(w, looks[0]);
      var w1, poll := Run(w, StepsOf(looks[0])), PollOf(w, looks[0]);
      hide Runs, Run;
      WaitIsRun(w1, Some(LimitBehind(w.hole, poll.0)), looks[1..], last);
      WaitTurn(w, limit, poll, Polls(w1, looks[1..]), w1.rx, last);
    }
  }

  predicate GoodHeader(h: Hole, mem: seq<Byte>, at: nat, rlen: nat) {
    && at + 12 <= h.size + h.extra && at + 12 <= 2 * |mem|
    && TYPE_MIN <= TypeAt(mem, at) <= TYPE_MAX && RlenAt(mem, at) == rlen
  }

  /** What a call does that has waited up to state `r`. When it times out, it has moved the limit once
      more, behind byte `last`, and says EAGAIN. Else, if the card put a good header where the record
      begins, it hands out the oldest record that was captured and not handed out: pointer, length, new
      offset and counters are those of the machine. */
  ghost predicate CallEnds(r: World, call: Outcome, limit: Option<nat>, last: nat, mem: seq<Byte>)
    requires Inv(r) && r.mindata > 0 && r.open == 0 && Enabled(r, Relimit(last))
  {
    if Short(r) then
      call == Outcome(r.rx, Some(Next(r, Relimit(last)).limit), Again)
    else
      && Enabled(r, HandOut) && (HandOutIsCaptured(r); r.pending != [])
      && (GoodHeader(r.hole, mem, r.rx.offset, r.pending[0]) ==>
            call == Outcome(Next(r, HandOut).rx, limit, Record(r.rx.offset, r.pending[0])))
  }

  lemma CallEnding(r: World, rx: Rx, polls: seq<(nat, nat)>, limit: Option<nat>, last: nat, mem: seq<Byte>)
    requires Inv(r) && r.mindata > 0 && r.open == 0 && Enabled(r, Relimit(last)) && |mem| == r.hole.size && !rx.first
    requires EndsIn(r, Wait(r.hole, r.mindata, rx, None, polls, SentReading(r, last)), limit, SentReading(r, last))
    ensures CallEnds(r, NextInline(r.hole, r.mindata, rx, mem, polls, SentReading(r, last)), limit, last, mem)
  {
    assert r.known <= |r.pending|;
    hide Inv, Short, TypeAt, RlenAt, Wait, LimitBehind, SentReading, Sum, Norm;
    RelimitStep(r, last);
    if !Short(r) {
      HandOutIsCaptured(r);
    }
  }

  /** A call over the readings it makes, with the card working before each of them, is a run up to the
      state where it ends; the limit register that it leaves is the machine's. */
  lemma CallIsRun(w: World, looks: seq<Look>, last: nat, mem: seq<Byte>)
    requires Inv(w) && w.mindata > 0 && w.open == 0 && |mem| == w.hole.size
    requires CardOnly(looks) && Runs(w, LoopSteps(looks)) && Lacks(w, looks)
    requires Enabled(Run(w, LoopSteps(looks)), Relimit(last))
    ensures var r := Run(w, LoopSteps(looks));
            var call := NextInline(w.hole, w.mindata, w.rx, mem, Polls(w, looks), SentReading(r, last));
            && r.mindata > 0 && r.open == 0
            && CallEnds(r, call, if looks == [] then None else Some(r.limit), last, mem)
  {
    assert !w.rx.first;
    hide Inv, Runs, Run, Enabled, MustWait, Short, EndsIn, CallEnds, NextInline, LoopSteps, SentReading, Polls, Lacks;
    var r := Run(w, LoopSteps(looks));
    WaitIsRun(w, None, looks, SentReading(r, last));
    CallEnding(r, w.rx, Polls(w, looks), if looks == [] then None else Some(r.limit), last, mem);
  }

  // ---- Safety ----

  /** In every state of every run the stations keep their order, the card is a safety window short of
      a lap ahead of the transmitted bytes, and the receive offset is the transmit offset plus the
      record that is out; with none out the two are equal. */
  lemma ForwardingSafe(w: World, steps: seq<Step>)
    requires Init(w) && w.mindata > 0 && (InitInv(w); Runs(w, steps))
    ensures var r := (InitInv(w); Run(w, steps));
            && r.transmitted <= r.committed <= r.processed <= r.captured
            && r.captured <= r.transmitted + r.hole.size - SAFETY_WINDOW
            && r.rx.offset == Norm(r.tx.offset + r.open, r.hole.size)
            && (r.open == 0 ==> r.rx.offset == r.tx.offset)
  {
    InitInv(w);
    var r := Run(w, steps);
    NormNorm(r.base, r.committed - r.freed, r.open, r.hole.size);
    hide Run, Runs, Sum;
  }

  /** The places that the card may fill next, by its register, are none of those whose bytes still wait
      to be sent. */
  lemma NothingUnsentIsOverwritten(w: World, n: nat, i: nat, k: nat)
    requires Inv(w) && Enabled(w, Capture(n)) && i < n
    requires w.transmitted <= k < w.captured
    ensures Norm(w.card + i, w.hole.size) != w.PlaceOf(k)
    ensures w.PlaceOf(k) < w.hole.size
  {
    RoomOfCard(w);
    hide Sum, UpTo;
    NormNorm(w.base, w.captured - w.freed, i, w.hole.size);
  }

  /** With nothing captured, a call that looks once goes on to a record header exactly when mindata is
      0. */
  lemma NothingCapturedIsNotRead(w: World, sent: nat, last: nat, mem: seq<Byte>)
    requires Inv(w) && w.pending == [] && w.hole.extra >= 16 && |mem| == w.hole.size
    ensures var looks := [(sent, SeenReading(w, 0))];
            NextInline(w.hole, w.mindata, w.rx, mem, looks, last).reply == Again <==> w.mindata > 0
  {
    PollSees(w, 0);
    assert w.rx.freeSpace == 0 && Ahead(w.hole, w.rx.offset, SeenReading(w, 0)) == 0;
    var looks, rx := [(sent, SeenReading(w, 0))], w.rx.(freeSpace := 0, processed := 0);
    assert looks[1..] == [] && Begin(w.rx) == w.rx;
    var limit := Some(LimitBehind(w.hole, sent));
    assert Wait(w.hole, w.mindata, rx, limit, [], last).ready <==> w.mindata == 0;
    assert Wait(w.hole, w.mindata, w.rx, None, looks, last).ready <==> w.mindata == 0;
    hide Inv, Sum, MustWait, Wait, Ahead, LimitBehind, TypeAt, RlenAt, SeenReading, Norm;
  }
}
