/** The transmit side of a stream: waiting for space, committing bytes, copying bytes. */
module TxStream {
  import opened Ring
  import opened Pbm
  import opened Wrappers

  /** The part of `stream_t` that the transmit calls use. */
  datatype Tx = Tx(
    size: nat,            // size of the memory hole
    bus: nat,             // bus address of the hole
    offset: nat,          // where the next byte goes
    freeSpace: int,       // cached number of bytes that may be written
    lastTop: nat,         // last value read from the other side's register
    lastBottom: nat)      // last value written to our own register
  {
    /** What attaching and starting a stream establishes. */
    predicate Ok() {
      && 2 * SAFETY_WINDOW <= size <= MAX_HOLE
      && bus + size <= TWO32
      && offset < size
      && 0 <= freeSpace < size
    }
  }

  /** One turn of the waiting loop: `reading` is what the other side's register showed. */
  function Look(tx: Tx, reading: nat): Tx {
    var gap := I32(reading - tx.bus - (tx.offset + SAFETY_WINDOW));
    tx.(lastTop := reading, freeSpace := if gap < 0 then I32(gap + tx.size) else gap)
  }

  datatype Space = Space(tx: Tx, granted: bool)

  /** Asks for `n` bytes. The register shows `polls` one after the other; the caller gives up
      (no blocking wanted, timed out or paused) when they are used up. */
  function GetSpace(tx: Tx, n: nat, polls: seq<nat>): (r: Space)
    ensures r.tx == tx.(lastTop := r.tx.lastTop, freeSpace := r.tx.freeSpace)
    decreases |polls|
  {
    if I32(n) <= tx.freeSpace then Space(tx.(freeSpace := I32(tx.freeSpace - n)), true)
    else if polls == [] then Space(tx, false)
    else GetSpace(Look(tx, polls[0]), n, polls[1..])
  }

  /** Moves the write position over `n` bytes and publishes it. */
  function Commit(tx: Tx, n: nat): Tx
  {
    var moved := U32(tx.offset + n);
    var offset := if moved >= tx.size then moved - tx.size else moved;
    tx.(offset := offset, lastBottom := U32(tx.bus + offset))
  }

  /** The formula in integers, for a register that shows place `q` of the hole. */
  lemma LookValue(tx: Tx, q: nat)
    requires tx.Ok() && q < tx.size
    ensures var gap := q - tx.offset - SAFETY_WINDOW;
            Look(tx, tx.bus + q).freeSpace == if gap < 0 then gap + tx.size else gap
  {
  }

  /** A commit of up to a whole hole moves the offset around the ring once at most. */
  lemma CommitPlace(tx: Tx, n: nat)
    requires tx.Ok() && n <= tx.size
    ensures var place := Norm(tx.offset + n, tx.size);
            Commit(tx, n) == tx.(offset := place, lastBottom := tx.bus + place) && place < tx.size
  {
  }

  /** What a waiting loop computes is the exact room, less the safety window, whenever the other
      side is between SAFETY_WINDOW bytes and one lap ahead of us; it is `ahead` bytes ahead. With
      fewer bytes the result is a whole lap too large, unless those bytes straddle the end. */
  lemma LookExact(tx: Tx, ahead: nat)
    requires tx.Ok() && ahead <= tx.size
    ensures var room, seen := ahead - 8, Look(tx, tx.bus + Norm(tx.offset + ahead, tx.size)).freeSpace;
            if room >= 0 || tx.offset + ahead >= tx.size then seen == room else seen == room + tx.size
  {
    LookValue(tx, Norm(tx.offset + ahead, tx.size));
  }

  /** The level that dag_get_stream_buffer_level reports for a transmit stream. */
  function TxLevel(limit: nat, record: nat, size: nat): int {
    var level := I32(limit - record);
    if level < 0 then level + size else level
  }

  /** Bytes queued, bytes free and the safety window always add up to the size of the hole: the
      card, at place `r`, has `queued` committed bytes before it and never a full hole of them. */
  lemma LevelAndSpace(tx: Tx, r: nat, queued: nat)
    requires tx.Ok() && r < tx.size && tx.offset == Norm(r + queued, tx.size)
    requires queued <= tx.size - SAFETY_WINDOW
    ensures var limit, record := tx.bus + tx.offset, tx.bus + r;
            && TxLevel(limit, record, tx.size) == queued
            && TxLevel(limit, record, tx.size) + Look(tx, record).freeSpace + SAFETY_WINDOW == tx.size
  {
    LookValue(tx, r);
  }

  /** Only the last reading counts. */
  lemma LookAgain(tx: Tx, a: nat, b: nat)
    ensures Look(Look(tx, a), b) == Look(tx, b)
    ensures Look(tx, a).freeSpace < TWO31
  {
  }

  /** What this side wrote last plays no part in a look. */
  lemma LookKeeps(tx: Tx, reading: nat, b: nat)
    ensures Look(tx.(lastBottom := b), reading) == Look(tx, reading).(lastBottom := b)
    ensures Look(tx, reading).lastBottom == tx.lastBottom
  {
  }

  /** A granted request below 2^31 fits the space that was cached or seen at one of the looks. */
  lemma {:induction false} GrantFits(tx: Tx, n: nat, polls: seq<nat>)
    requires tx.freeSpace < TWO31 && n < TWO31
    requires GetSpace(tx, n, polls).granted
    ensures var left := GetSpace(tx, n, polls).tx.freeSpace;
            && 0 <= left
            && (left + n == tx.freeSpace || exists i :: 0 <= i < |polls| && left + n == Look(tx, polls[i]).freeSpace)
    decreases |polls|
  {
    if n > tx.freeSpace {
      var tx1, left := Look(tx, polls[0]), GetSpace(tx, n, polls).tx.freeSpace;
      LookAgain(tx, polls[0], polls[0]);
      hide Look;
      GrantFits(tx1, n, polls[1..]);
      if left + n != tx1.freeSpace {
        var i :| 0 <= i < |polls[1..]| && left + n == Look(tx1, polls[1..][i]).freeSpace;
        LookAgain(tx, polls[0], polls[i + 1]);
      }
    }
  }

  /** The waiting loop of a copy. `pausedThen` says that it finds the stream paused after its last look,
      and leaves then, even if that look showed enough space. */
  function CopySpace(tx: Tx, n: nat, polls: seq<nat>, pausedThen: bool): (r: Space)
    ensures r.tx == tx.(lastTop := r.tx.lastTop, freeSpace := r.tx.freeSpace)
    decreases |polls|
  {
    if I32(n) <= tx.freeSpace then Space(tx.(freeSpace := I32(tx.freeSpace - n)), true)
    else if polls == [] then Space(tx, false)
    else if pausedThen && |polls| == 1 then Space(Look(tx, polls[0]), false)
    else CopySpace(Look(tx, polls[0]), n, polls[1..], pausedThen)
  }

  /** It differs from the other waiting loop in that last look only, whose space it does not take. */
  lemma {:induction false} CopySpaceIs(tx: Tx, n: nat, polls: seq<nat>)
    ensures CopySpace(tx, n, polls, false) == GetSpace(tx, n, polls)
    ensures polls != [] ==>
              var last := |polls| - 1; var before := GetSpace(tx, n, polls[..last]);
              CopySpace(tx, n, polls, true) == if before.granted then before else Space(Look(tx, polls[last]), false)
    decreases |polls|
  {
    if polls != [] && tx.freeSpace < I32(n) {
      var last := |polls| - 1;
      CopySpaceIs(Look(tx, polls[0]), n, polls[1..]);
      assert polls[..last] == if last == 0 then [] else [polls[0]] + polls[1..][..last - 1];
      assert last > 0 ==> polls[..last][1..] == polls[1..][..last - 1];
      LookAgain(tx, polls[0], polls[last]);
      hide Look;
    }
  }

  /** The comparison with the request is signed: a request of 2^31 bytes or more is granted at once,
      whatever the space and without a look. */
  lemma LargeIsGranted(tx: Tx, n: nat, polls: seq<nat>)
    requires tx.Ok() && TWO31 <= n < TWO32
    ensures I32(n) < 0 && GetSpace(tx, n, polls).granted
    ensures GetSpace(tx, n, polls).tx.lastTop == tx.lastTop
  {
  }

  /** Space that the call had cached or computed at one of its looks. */
  ghost predicate SeenSpace(tx: Tx, polls: seq<nat>, space: int) {
    space == tx.freeSpace || exists i :: 0 <= i < |polls| && space == Look(tx, polls[i]).freeSpace
  }

  /** So a grant means that the request fits some space that the call had seen exactly when the request
      is less than 2^31. */
  lemma GrantMeansRoom(tx: Tx, n: nat, polls: seq<nat>)
    requires tx.Ok() && n < TWO32 && GetSpace(tx, n, polls).granted
    ensures (exists space :: SeenSpace(tx, polls, space) && n <= space) <==> n < TWO31
  {
    if n < TWO31 {
      GrantFits(tx, n, polls);
      assert SeenSpace(tx, polls, GetSpace(tx, n, polls).tx.freeSpace + n);
    } else {
      forall space | SeenSpace(tx, polls, space)
        ensures space < TWO31
      {
        if space != tx.freeSpace {
          var i :| 0 <= i < |polls| && space == Look(tx, polls[i]).freeSpace;
          LookAgain(tx, polls[i], polls[i]);
        }
      }
    }
  }

  /** How many places after `p` the place `j` comes, going around the ring. */
  function After(p: nat, j: nat, size: nat): (i: nat)
    requires p < size && j < size
    ensures i < size && Norm(p + i, size) == j
  {
    if j >= p then j - p else j + size - p
  }

  /** The ring after `data` has been laid around it from place `p` on. */
  function RingWrite(mem: seq<Byte>, p: nat, data: seq<Byte>): (r: seq<Byte>)
    requires p < |mem|
    ensures |r| == |mem|
  {
    seq(|mem|, j requires 0 <= j < |mem| =>
      if After(p, j, |mem|) < |data| then data[After(p, j, |mem|)] else mem[j])
  }

  /** What was laid down is read back through the double mapping, and nothing else changed. */
  lemma RingWriteReadsBack(mem: seq<Byte>, p: nat, data: seq<Byte>)
    requires p < |mem| && |data| <= |mem|
    ensures View(RingWrite(mem, p, data), p, |data|) == data
    ensures var rest := |mem| - |data|;
            View(RingWrite(mem, p, data), p + |data|, rest) == View(mem, p + |data|, rest)
  {
    var r, n, m := RingWrite(mem, p, data), |data|, |mem|;
    forall i | 0 <= i < n
      ensures View(r, p, n)[i] == data[i]
    {
      assert After(p, Norm(p + i, m), m) == i;
    }
    var after, before := View(r, p + n, m - n), View(mem, p + n, m - n);
    forall i | 0 <= i < m - n
      ensures after[i] == before[i]
    {
      assert After(p, Norm(p + (n + i), m), m) == n + i;
    }
  }

  /** Laying down one more byte. */
  lemma RingWriteStep(mem: seq<Byte>, p: nat, data: seq<Byte>, b: Byte)
    requires p < |mem| && |data| < |mem|
    ensures RingWrite(mem, p, data + [b]) == RingWrite(mem, p, data)[Norm(p + |data|, |mem|) := b]
  {
    assert After(p, Norm(p + |data|, |mem|), |mem|) == |data|;
  }

  /** Stores consecutive bytes, as the C library does. */
  method MemCpy(hole: array<Byte>, at: nat, data: seq<Byte>)
    requires at + |data| <= hole.Length
    modifies hole
    ensures hole[..] == old(hole[..at]) + data + old(hole[at + |data|..])
  {
    for i := 0 to |data|
      invariant hole[..] == old(hole[..at]) + data[..i] + old(hole[at + i..])
    {
      hole[at + i] := data[i];
    }
  }

  /** The copy into the hole: one piece, or two when it passes the end of the buffer. */
  method RingCopy(hole: array<Byte>, at: nat, data: seq<Byte>)
    requires at < hole.Length && |data| <= hole.Length
    modifies hole
    ensures hole[..] == RingWrite(old(hole[..]), at, data)
  {
    var remaining := hole.Length - at;
    if remaining >= |data| {
      MemCpy(hole, at, data);
    } else {
      MemCpy(hole, at, data[..remaining]);
      MemCpy(hole, 0, data[remaining..]);
    }
  }

  /** A transmit stream attached to a hole; `limitPtr` is the register this side writes. */
  class Stream {
    const size: nat
    const bus: nat
    const limitPtr: Register
    var offset: nat
    var freeSpace: int
    var lastTop: nat
    var lastBottom: nat

    constructor (size: nat, bus: nat, limitPtr: Register)
      requires 2 * SAFETY_WINDOW <= size <= MAX_HOLE && bus + size <= TWO32
      ensures State() == Tx(size, bus, 0, 0, bus, bus) && State().Ok()
      ensures this.limitPtr == limitPtr
    {
      this.size, this.bus, this.limitPtr := size, bus, limitPtr;
      offset, freeSpace, lastTop, lastBottom := 0, 0, bus, bus;
    }

    function State(): Tx
      reads this
    {
      Tx(size, bus, offset, freeSpace, lastTop, lastBottom)
    }

    /** What both waiting loops recompute from a register reading. */
    method Recompute(reading: nat)
      modifies `lastTop, `freeSpace
      ensures State() == Look(old(State()), reading)
    {
      lastTop := reading;
      freeSpace := I32(lastTop - bus - (offset + SAFETY_WINDOW));
      if freeSpace < 0 {
        freeSpace := I32(freeSpace + size);
      }
    }

    /** dag_tx_get_stream_space. `polls` are the readings made before the call gives up, `pausedThen`
        says whether it does because the stream was paused meanwhile. A call that looks also reads its
        own register back. */
    method GetStreamSpace(n: nat, paused: bool, polls: seq<nat>, pausedThen: bool) returns (r: Result<nat>)
      requires n < TWO32 && State().Ok() && polls != []
      modifies this
      ensures paused ==> r == Err(ENOMEM) && State() == old(State())
      ensures !paused ==>
                var s := GetSpace(old(State()), n, polls);
                && State() == (if I32(n) <= old(freeSpace) then s.tx else s.tx.(lastBottom := limitPtr.value))
                && r == if s.granted then Ok(offset) else Err(if pausedThen then ENOMEM else EAGAIN)
    {
      hide Look, I32;
      if paused {
        return Err(ENOMEM);
      }
      var i := 0;
      while freeSpace < I32(n)
        invariant i <= |polls|
        invariant i == |polls| ==> freeSpace >= I32(n)
        invariant i == 0 ==> State() == old(State())
        invariant i > 0 ==> I32(n) > old(freeSpace) && lastBottom == limitPtr.value
        invariant GetSpace(old(State()), n, polls) == GetSpace(State().(lastBottom := old(lastBottom)), n, polls[i..])
        decreases |polls| - i
      {
        assert polls[i..][1..] == polls[i + 1..];
        lastBottom := limitPtr.value;
        LookKeeps(State(), polls[i], old(lastBottom));
        Recompute(polls[i]);
        i := i + 1;
        if freeSpace >= I32(n) {
          break;
        }
        if i == |polls| {
          return Err(if pausedThen then ENOMEM else EAGAIN);
        }
      }
      freeSpace := I32(freeSpace - n);
      return Ok(offset);
    }

    /** dag_tx_stream_commit_bytes. */
    method CommitBytes(n: nat, paused: bool) returns (r: Result<nat>)
      requires State().Ok()
      modifies this, limitPtr
      ensures n > size ==> r == Err(EINVAL)
      ensures n <= size && paused ==> r == Err(ENOMEM)
      ensures r.Err? ==> State() == old(State()) && limitPtr.value == old(limitPtr.value)
      ensures r.Ok? ==> State() == Commit(old(State()), n) && limitPtr.value == lastBottom && r.value == offset < size
      ensures n <= size && !paused ==> r.Ok?
    {
      if n > size {
        return Err(EINVAL);
      }
      if paused {
        return Err(ENOMEM);
      }
      offset := offset + n;
      if offset >= size {
        offset := offset - size;
      }
      lastBottom := bus + offset;
      limitPtr.value := lastBottom;
      return Ok(offset);
    }

    /** dag_tx_stream_copy_bytes. The call only leaves its waiting loop without the space when the stream
        is paused; it then reports the full length although it stored nothing. */
    method CopyBytes(hole: array<Byte>, data: seq<Byte>, paused: bool, polls: seq<nat>, pausedThen: bool)
      returns (r: Result<nat>)
      requires State().Ok() && hole.Length == size
      modifies this, limitPtr, hole
      ensures |data| > size ==> r == Err(EINVAL)
      ensures |data| <= size ==> r == Ok(|data|)
      ensures var s := CopySpace(old(State()), |data|, polls, pausedThen);
              if |data| <= size && !paused && s.granted then
                && State() == Commit(s.tx, |data|)
                && limitPtr.value == lastBottom
                && hole[..] == RingWrite(old(hole[..]), s.tx.offset, data)
              else
                && limitPtr.value == old(limitPtr.value)
                && hole[..] == old(hole[..])
                && State() == if |data| > size || paused then old(State()) else s.tx
    {
      if |data| > size {
        return Err(EINVAL);
      }
      if paused {
        return Ok(|data|);
      }
      var i := 0;
      while freeSpace < I32(|data|)
        invariant i <= |polls|
        invariant limitPtr.value == old(limitPtr.value) && hole[..] == old(hole[..])
        invariant CopySpace(old(State()), |data|, polls, pausedThen)
               == CopySpace(State(), |data|, polls[i..], pausedThen)
        decreases |polls| - i
      {
        if i == |polls| {
          return Ok(|data|);
        }
        assert polls[i..][1..] == polls[i + 1..];
        Recompute(polls[i]);
        i := i + 1;
        if pausedThen && i == |polls| {
          return Ok(|data|);
        }
      }
      freeSpace := I32(freeSpace - |data|);
      RingCopy(hole, offset, data);
      offset := offset + |data|;
      if offset >= size {
        offset := offset - size;
      }
      lastBottom := bus + offset;
      limitPtr.value := lastBottom;
      return Ok(|data|);
    }
  }
}
