/** Both ends of one stream as library code: a producer that reserves, writes and commits, and a
    consumer that advances, with the two pointers swapped for whichever side runs in reverse mode.
    Every shared access is a step of its own, so that a run is any interleaving of the two. */
module SoftDag {
  import opened Ring
  import opened Pbm
  import TxStream
  import RxStream

  datatype Link = Link(
    hole: RxStream.Hole,
    producer: Mode,             // the consumer is in the other mode
    mem: seq<Byte>,
    regs: Registers,
    tx: TxStream.Tx,
    granted: nat,               // what the producer may still commit
    bottom: nat,                // the consumer's window, in virtual offsets
    top: nat,
    committed: seq<Byte>,       // all bytes that were published
    received: seq<Byte>,        // all bytes that the consumer has taken
    released: nat,              // how many of them it had taken when it last freed space,
    base: nat)                  // and the place that this was
  {
    function Consumer(): Mode {
      Other(producer)
    }

    ghost predicate Ok() {
      hole.Ok() && |mem| == hole.size && tx.Ok() && tx.size == hole.size && tx.bus == hole.bus
    }
  }

  datatype Step =
    | Recompute                        // producer: reads the other register
    | Reserve(n: nat)                  // producer: takes n bytes from the cached space
    | Write(i: nat, b: Byte)           // producer: stores a byte into the reserved space
    | Publish(n: nat)                  // producer: commits n bytes
    | Look                             // consumer: reads the other register
    | Release                          // consumer: writes its limit
    | Consume(n: nat)                  // consumer: takes n bytes from its window

  /** What the code tests, and what its comments ask of the caller: requests below 2^31, commits
      within the last reservation, bytes taken from the window only. */
  predicate Enabled(s: Link, step: Step) {
    match step
    case Reserve(n) => n < TWO31 && I32(n) <= s.tx.freeSpace
    case Write(i, _) => i < s.granted
    case Publish(n) => n <= s.granted
    case Consume(n) => s.bottom + n <= s.top
    case _ => true
  }

  predicate IsConsumerStep(step: Step) {
    step.Look? || step.Release? || step.Consume?
  }

  function Window(s: Link): (w: seq<Byte>)
    requires s.bottom <= s.top <= 2 * |s.mem|
  {
    View(s.mem, s.bottom, s.top - s.bottom)
  }

  /** The state right after both sides have attached and started the stream. */
  predicate Init(s: Link) {
    && s.hole.Ok() && |s.mem| == s.hole.size
    && s.tx == TxStream.Tx(s.hole.size, s.hole.bus, 0, 0, s.hole.bus, s.hole.bus)
    && RecordPtr(s.regs, s.Consumer()) == s.hole.bus
    && RecordPtr(s.regs, s.producer) == s.hole.bus + s.hole.size - SAFETY_WINDOW
    && s.granted == s.bottom == s.top == s.released == s.base == 0
    && s.committed == s.received == []
  }

  /** The room the producer really has: the consumer keeps one safety window, the producer another. */
  function Room(s: Link): int {
    s.released + s.hole.size - 2 * SAFETY_WINDOW - |s.committed|
  }

  /** The order of the positions, and the producer's books. */
  ghost predicate Positions(s: Link) {
    && s.released <= |s.received| <= |s.received| + (s.top - s.bottom) <= |s.committed|
    && s.granted + s.tx.freeSpace <= Room(s)
  }

  /** Committed bytes that the consumer has not freed. */
  function Held(s: Link): seq<Byte>
    requires s.released <= |s.committed|
  {
    s.committed[s.released..]
  }

  /** The offsets and registers are the positions, modulo the size of the hole. */
  ghost predicate Places(s: Link)
    requires s.Ok() && Positions(s)
  {
    var size, q := s.hole.size, s.base;
    && q < size
    && RecordPtr(s.regs, s.producer) == s.hole.bus + Norm(q + size - SAFETY_WINDOW, size)
    && RecordPtr(s.regs, s.Consumer()) == s.hole.bus + s.tx.offset
    && s.tx.offset == Norm(q + |Held(s)|, size)
    && s.bottom <= s.top <= size + s.hole.extra && s.top < 2 * size
    && Norm(s.bottom, size) == Norm(q + (|s.received| - s.released), size)
  }

  ghost predicate Inv(s: Link) {
    && s.Ok()
    && Positions(s)
    && Places(s)
    && Holds(s.mem, s.base, Held(s))
  }

  // ---- The steps ----

  function Recomputed(s: Link): Link {
    s.(tx := TxStream.Look(s.tx, RecordPtr(s.regs, s.producer)), granted := 0)
  }

  function Written(s: Link, i: nat, b: Byte): Link
    requires s.tx.offset + i < 2 * s.hole.size && |s.mem| == s.hole.size
  {
    s.(mem := s.mem[Norm(s.tx.offset + i, s.hole.size) := b])
  }

  /** The n bytes at the producer's offset become part of the stream. */
  function Committed(s: Link, n: nat): Link
    requires s.tx.offset + n <= 2 * |s.mem|
  {
    var tx := TxStream.Commit(s.tx, n);
    s.(tx := tx, regs := SetLimitPtr(s.regs, s.producer, tx.lastBottom),
       committed := s.committed + View(s.mem, s.tx.offset, n))
  }

  function Looked(s: Link): Link {
    var b := Norm(s.bottom, s.hole.size);
    var top := RxStream.TopOf(s.hole, b, RxStream.CurOffset(s.hole, RecordPtr(s.regs, s.Consumer())));
    s.(bottom := b, top := if top < 0 then 0 else top)
  }

  function Released(s: Link): Link
    requires s.hole.Ok()
  {
    s.(regs := SetLimitPtr(s.regs, s.Consumer(), RxStream.LimitFor(s.hole, s.bottom)),
       released := |s.received|, base := Norm(s.bottom, s.hole.size))
  }

  function Consumed(s: Link, n: nat): Link
    requires s.bottom + n <= 2 * |s.mem|
  {
    s.(bottom := s.bottom + n, received := s.received + View(s.mem, s.bottom, n))
  }

  /** A space request that looks again makes an older reservation void. */
  ghost function Next(s: Link, step: Step): Link
    requires Inv(s) && Enabled(s, step)
  {
    match step
    case Recompute => Recomputed(s)
    case Reserve(n) => s.(tx := s.tx.(freeSpace := I32(s.tx.freeSpace - n)), granted := n)
    case Write(i, b) => Written(s, i, b)
    case Publish(n) => Committed(s, n).(granted := s.granted - n)
    case Look => Looked(s)
    case Release => Released(s)
    case Consume(n) => Consumed(s, n)
  }

  lemma InitInv(s: Link)
    requires Init(s)
    ensures Inv(s)
  {
  }

  /** What the producer computes from its reading is the room, byte for byte. */
  lemma LookIsRoom(s: Link)
    requires Inv(s)
    ensures var tx := TxStream.Look(s.tx, RecordPtr(s.regs, s.producer));
            tx.freeSpace == Room(s) && tx.Ok() && tx == s.tx.(lastTop := tx.lastTop, freeSpace := tx.freeSpace)
  {
    TxStream.LookExact(s.tx, s.hole.size - SAFETY_WINDOW - |Held(s)|);
  }

  lemma RecomputeExact(s: Link)
    requires Inv(s)
    ensures Recomputed(s).tx.freeSpace == Room(s)
    ensures Inv(Recomputed(s))
  {
    LookIsRoom(s);
  }

  lemma WriteInv(s: Link, i: nat, b: Byte)
    requires Inv(s) && i < s.granted
    ensures Inv(Written(s, i, b))
  {
    WriteKeeps(s.mem, s.base, Held(s), |Held(s)| + i, b);
  }

  lemma PublishHolds(s: Link, n: nat)
    requires Inv(s) && n <= s.granted
    ensures Holds(s.mem, s.base, Held(Committed(s, n)))
  {
    HoldsExtends(s.mem, s.base, Held(s), s.tx.offset, n);
    assert Held(Committed(s, n)) == Held(s) + View(s.mem, s.tx.offset, n);
  }

  lemma PublishInv(s: Link, n: nat)
    requires Inv(s) && n <= s.granted
    ensures Inv(Committed(s, n).(granted := s.granted - n))
  {
    PublishHolds(s, n);
    TxStream.CommitPlace(s.tx, n);
    hide TxStream.Commit, Holds;
  }

  /** A look extends the window to all that was published, or to the end of the mapping. */
  lemma LookSees(s: Link)
    requires Inv(s)
    ensures var b := Norm(s.bottom, s.hole.size);
            var n := RxStream.Min(|s.committed| - |s.received|, s.hole.size + s.hole.extra - b);
            0 <= n && Looked(s) == s.(bottom := b, top := b + n)
  {
    NormNorm(s.base, |s.received| - s.released, |s.committed| - |s.received|, s.hole.size);
    RxStream.TopShows(s.hole, Norm(s.bottom, s.hole.size), |s.committed| - |s.received|);
    hide RxStream.CurOffset, RxStream.TopOf;
  }

  lemma LookInv(s: Link)
    requires Inv(s)
    ensures Inv(Looked(s))
  {
    LookSees(s);
    hide Looked, Holds;
  }

  lemma ReleaseInv(s: Link)
    requires Inv(s)
    ensures Inv(Released(s))
  {
    HoldsDrops(s.mem, s.base, Held(s), |s.received| - s.released);
    assert Held(Released(s)) == Held(s)[|s.received| - s.released..];
  }

  /** What the consumer sees between bottom and top is the next stretch of what was committed. */
  lemma WindowIsNext(s: Link)
    requires Inv(s)
    ensures Window(s) == s.committed[|s.received|..|s.received| + (s.top - s.bottom)]
  {
    HoldsShows(s.mem, s.base, Held(s), |s.received| - s.released, s.bottom, s.top - s.bottom);
  }

  lemma ConsumeTakesNext(s: Link, n: nat)
    requires Inv(s) && s.bottom + n <= s.top
    ensures Consumed(s, n).received == s.received + s.committed[|s.received|..|s.received| + n]
    ensures Inv(Consumed(s, n))
  {
    HoldsShows(s.mem, s.base, Held(s), |s.received| - s.released, s.bottom, n);
  }

  lemma NextInv(s: Link, step: Step)
    requires Inv(s) && Enabled(s, step)
    ensures Inv(Next(s, step))
  {
    match step
    case Recompute => RecomputeExact(s);
    case Reserve(n) =>
    case Write(i, b) => WriteInv(s, i, b);
    case Publish(n) => PublishInv(s, n);
    case Look => LookInv(s);
    case Release => ReleaseInv(s);
    case Consume(n) => ConsumeTakesNext(s, n);
  }

  /** The specification: a queue of bytes. */
  datatype Queue = Queue(put: seq<Byte>, got: seq<Byte>)

  /** Either bytes are put at the end, or the next ones in line are taken. */
  ghost predicate QueueStep(q: Queue, q': Queue) {
    || (q'.got == q.got && q.put <= q'.put)
    || (q'.put == q.put && |q.got| <= |q'.got| <= |q.put| && q'.got == q.got + q.put[|q.got|..|q'.got|])
  }

  function Abs(s: Link): Queue {
    Queue(s.committed, s.received)
  }

  /** What the consumer has taken is always the beginning of what was committed. */
  ghost predicate InOrder(s: Link) {
    s.received <= s.committed
  }

  /** Every step of either side is a step of the queue, or changes nothing that it shows. */
  lemma StepRefinesQueue(s: Link, step: Step)
    requires Inv(s) && Enabled(s, step)
    ensures QueueStep(Abs(s), Abs(Next(s, step)))
    ensures InOrder(s) ==> InOrder(Next(s, step))
  {
    if step.Consume? {
      ConsumeTakesNext(s, step.n);
    }
  }

  lemma StepLeaves(s: Link, step: Step)
    requires Inv(s) && Enabled(s, step)
    ensures var t := Next(s, step);
            if IsConsumerStep(step) then t.mem == s.mem
            else t.bottom == s.bottom && t.top == s.top && t.received == s.received && s.committed <= t.committed
  {
    hide View, Holds, Places;
  }

  /** The window of a producer step is the same stretch of the committed bytes. */
  lemma WindowStays(s: Link, t: Link)
    requires Inv(s) && Inv(t) && s.committed <= t.committed
    requires t.bottom == s.bottom && t.top == s.top && t.received == s.received
    ensures Window(t) == Window(s)
  {
    WindowIsNext(s);
    WindowIsNext(t);
    var k := |s.received| + (s.top - s.bottom);
    assert k <= |s.committed| by {
      hide Holds, Places, View, Window;
    }
    hide Inv, Window;
    assert t.committed[..k] == s.committed[..k];
    assert t.committed[|s.received|..k] == t.committed[..k][|s.received|..];
    assert s.committed[|s.received|..k] == s.committed[..k][|s.received|..];
  }

  /** Nothing that the producer does changes a byte of the consumer's window, and nothing that the
      consumer does touches memory. */
  lemma WindowIsStable(s: Link, step: Step)
    requires Inv(s) && Enabled(s, step)
    ensures (NextInv(s, step);
             if IsConsumerStep(step) then Next(s, step).mem == s.mem
             else Window(Next(s, step)) == Window(s))
  {
    StepLeaves(s, step);
    NextInv(s, step);
    hide Next, Enabled, Window;
    if !IsConsumerStep(step) {
      WindowStays(s, Next(s, step));
    }
  }

  /** All steps can be taken, one after the other. */
  ghost predicate Runs(s: Link, steps: seq<Step>)
    requires Inv(s)
    decreases |steps|
  {
    steps == [] || (Enabled(s, steps[0]) && (NextInv(s, steps[0]); Runs(Next(s, steps[0]), steps[1..])))
  }

  ghost function Run(s: Link, steps: seq<Step>): (r: Link)
    requires Inv(s) && Runs(s, steps)
    ensures Inv(r)
    decreases |steps|
  {
    if steps == [] then s
    else NextInv(s, steps[0]); Run(Next(s, steps[0]), steps[1..])
  }

  lemma {:induction false} RunInOrder(s: Link, steps: seq<Step>)
    requires Inv(s) && Runs(s, steps) && InOrder(s)
    ensures InOrder(Run(s, steps))
    decreases |steps|
  {
    if steps != [] {
      NextInv(s, steps[0]);
      StepRefinesQueue(s, steps[0]);
      RunInOrder(Next(s, steps[0]), steps[1..]);
    }
  }

  /** The ring is a FIFO: in every interleaving, what the consumer took is a prefix of what was
      committed, what it is being shown is exactly the next stretch of it, nothing is lost, and the
      bytes in flight leave two safety windows free. */
  lemma Fifo(s: Link, steps: seq<Step>)
    requires Init(s) && (InitInv(s); Runs(s, steps))
    ensures var r := (InitInv(s); Run(s, steps));
            && r.received <= r.committed
            && r.received + Window(r) <= r.committed
            && |r.committed| - |r.received| + r.granted + r.tx.freeSpace <= r.hole.size - 2 * SAFETY_WINDOW
  {
    InitInv(s);
    RunInOrder(s, steps);
    WindowIsNext(Run(s, steps));
  }

  /** When everything has been taken and released, the whole hole less two windows is free again. */
  lemma DrainedRingIsFree(s: Link)
    requires Inv(s) && |s.received| == |s.committed| && s.released == |s.received|
    ensures Recomputed(s).tx.freeSpace == s.hole.size - 2 * SAFETY_WINDOW
  {
    RecomputeExact(s);
  }

  lemma CommittedRoom(s: Link, n: nat)
    requires s.Ok() && s.tx.offset < s.hole.size && n <= s.hole.size
    ensures Committed(s, n).tx.freeSpace == s.tx.freeSpace && Room(Committed(s, n)) == Room(s) - n
  {
  }

  // ---- The library calls are runs, whatever the other side does in between ----

  ghost predicate AllConsumer(steps: seq<Step>) {
    forall i :: 0 <= i < |steps| ==> IsConsumerStep(steps[i])
  }

  /** The producer does not notice the consumer's steps, except through the limit register. */
  lemma {:induction false} ConsumerRun(s: Link, env: seq<Step>)
    requires Inv(s) && Runs(s, env) && AllConsumer(env)
    ensures var r := Run(s, env);
            && r.tx == s.tx && r.granted == s.granted && r.mem == s.mem && r.committed == s.committed
            && r.hole == s.hole && r.producer == s.producer
    decreases |env|
  {
    if env != [] {
      NextInv(s, env[0]);
      ConsumerRun(Next(s, env[0]), env[1..]);
    }
  }

  lemma {:induction false} RunConcat(s: Link, a: seq<Step>, b: seq<Step>)
    requires Inv(s) && Runs(s, a) && Runs(Run(s, a), b)
    ensures Runs(s, a + b) && Run(s, a + b) == Run(Run(s, a), b)
    decreases |a|
  {
    hide Next, Enabled, Inv;
    if a == [] {
      assert a + b == b;
    } else {
      NextInv(s, a[0]);
      RunConcat(Next(s, a[0]), a[1..], b);
      assert (a + b)[1..] == a[1..] + b;
    }
  }

  /** The other side's steps, then one step of ours, then the rest of the run. */
  lemma RunThrough(s: Link, env: seq<Step>, step: Step, rest: seq<Step>)
    requires Inv(s) && Runs(s, env) && Enabled(Run(s, env), step)
    requires (NextInv(Run(s, env), step); Runs(Next(Run(s, env), step), rest))
    ensures Runs(s, env + ([step] + rest))
    ensures Run(s, env + ([step] + rest)) == (NextInv(Run(s, env), step); Run(Next(Run(s, env), step), rest))
  {
    NextInv(Run(s, env), step);
    assert ([step] + rest)[1..] == rest;
    RunConcat(s, env, [step] + rest);
  }

  lemma {:induction false} RunSplit(s: Link, a: seq<Step>, b: seq<Step>)
    requires Inv(s) && Runs(s, a + b)
    ensures Runs(s, a) && Runs(Run(s, a), b) && Run(s, a + b) == Run(Run(s, a), b)
    decreases |a|
  {
    hide Next, Enabled, Inv;
    if a == [] {
      assert a + b == b;
    } else {
      assert (a + b)[0] == a[0] && (a + b)[1..] == a[1..] + b;
      NextInv(s, a[0]);
      RunSplit(Next(s, a[0]), a[1..], b);
    }
  }

  /** The steps of a waiting loop: before each of its looks, `own`, the other side moves. */
  function Interleaved(envs: seq<seq<Step>>, own: Step): seq<Step> {
    if envs == [] then [] else envs[0] + ([own] + Interleaved(envs[1..], own))
  }

  /** One turn of a waiting loop, as part of its run. */
  lemma TurnRuns(s: Link, envs: seq<seq<Step>>, own: Step)
    requires Inv(s) && envs != [] && Runs(s, Interleaved(envs, own))
    ensures Runs(s, envs[0])
    ensures var s1 := Run(s, envs[0]); Enabled(s1, own) && Inv(Next(s1, own))
    ensures var s2 := Next(Run(s, envs[0]), own);
            && Runs(s2, Interleaved(envs[1..], own))
            && Run(s, Interleaved(envs, own)) == Run(s2, Interleaved(envs[1..], own))
  {
    hide Next, Enabled, Inv;
    var rest := Interleaved(envs[1..], own);
    RunSplit(s, envs[0], [own] + rest);
    assert ([own] + rest)[1..] == rest;
    NextInv(Run(s, envs[0]), own);
  }

  /** The state after one turn. */
  ghost function Turned(s: Link, envs: seq<seq<Step>>, own: Step): (r: Link)
    requires Inv(s) && envs != [] && Runs(s, Interleaved(envs, own))
    ensures Inv(r) && Runs(r, Interleaved(envs[1..], own))
    ensures Run(s, Interleaved(envs, own)) == Run(r, Interleaved(envs[1..], own))
  {
    TurnRuns(s, envs, own);
    Next(Run(s, envs[0]), own)
  }

  /** What the looks of a waiting loop see: the register that a side in the given mode reads, each time
      after the other side has moved. */
  ghost function Readings(s: Link, envs: seq<seq<Step>>, own: Step, mode: Mode): (polls: seq<nat>)
    requires Inv(s) && Runs(s, Interleaved(envs, own))
    ensures |polls| == |envs|
    decreases |envs|
  {
    if envs == [] then []
    else
      TurnRuns(s, envs, own);
      [RecordPtr(Run(s, envs[0]).regs, mode)] + Readings(Turned(s, envs, own), envs[1..], own, mode)
  }

  ghost predicate AllConsumers(envs: seq<seq<Step>>) {
    forall i :: 0 <= i < |envs| ==> AllConsumer(envs[i])
  }

  /** The guard of the loop: each look is made because there is too little space before it. */
  ghost predicate LacksSpace(s: Link, n: nat, envs: seq<seq<Step>>)
    requires Inv(s) && Runs(s, Interleaved(envs, Recompute))
    decreases |envs|
  {
    envs == [] || (s.tx.freeSpace < I32(n) && LacksSpace(Turned(s, envs, Recompute), n, envs[1..]))
  }

  /** A call of dag_tx_get_stream_space over the readings that it makes, with the consumer moving before
      each of them, ends in the state of that run, with the space reserved if there is enough by then. */
  lemma {:induction false} GetSpaceIsRun(s: Link, n: nat, envs: seq<seq<Step>>)
    requires Inv(s) && n < TWO31 && AllConsumers(envs)
    requires Runs(s, Interleaved(envs, Recompute)) && LacksSpace(s, n, envs)
    ensures var r := Run(s, Interleaved(envs, Recompute));
            var call := TxStream.GetSpace(s.tx, n, Readings(s, envs, Recompute, s.producer));
            && r.mem == s.mem && r.committed == s.committed && r.hole == s.hole && r.producer == s.producer
            && (call.granted <==> I32(n) <= r.tx.freeSpace)
            && (if call.granted then Enabled(r, Reserve(n)) && call.tx == Next(r, Reserve(n)).tx else call.tx == r.tx)
    decreases |envs|
  {
    hide Places, Holds, Positions;
    if envs != [] {
      TurnRuns(s, envs, Recompute);
      var s2 := Turned(s, envs, Recompute);
      ConsumerRun(s, envs[0]);
      GetSpaceIsRun(s2, n, envs[1..]);
      var polls := Readings(s, envs, Recompute, s.producer);
      assert polls[1..] == Readings(s2, envs[1..], Recompute, s.producer);
      assert s2.tx == TxStream.Look(s.tx, polls[0]);
    }
  }

  // ---- Commits without a reservation ----

  ghost predicate Honest(s: Link) {
    s.tx.freeSpace <= Room(s)
  }

  /** A program reserves n bytes, makes further requests, which look again and find too little, and
      commits the n bytes then. `looks[i]` is what the consumer does before the i-th look, `env` what it
      does between the last one and the commit. Without a look in between the cached space stays honest.
      With one, it is honest after the commit exactly when the consumer has freed n bytes since. */
  lemma LateCommit(s: Link, n: nat, looks: seq<seq<Step>>, env: seq<Step>)
    requires Inv(s) && Enabled(s, Reserve(n)) && AllConsumers(looks) && AllConsumer(env)
    requires (NextInv(s, Reserve(n)); Runs(Next(s, Reserve(n)), Interleaved(looks, Recompute)))
    requires Runs(Run(Next(s, Reserve(n)), Interleaved(looks, Recompute)), env)
    ensures var s2 := Run(Next(s, Reserve(n)), Interleaved(looks, Recompute)); var s3 := Run(s2, env);
            && s3.Ok() && n <= s.hole.size == s3.hole.size
            && (looks == [] ==> Honest(Committed(s3, n)))
            && (looks != [] ==> (Honest(Committed(s3, n)) <==> n <= s3.released - s2.released))
  {
    var s1 := Next(s, Reserve(n));
    NextInv(s, Reserve(n));
    var s2 := Run(s1, Interleaved(looks, Recompute));
    var s3 := Run(s2, env);
    LooksEndExact(s1, looks);
    ConsumerRun(s2, env);
    assert n <= s.hole.size by {
      assert I32(n) == n;
    }
    hide Interleaved, Runs, Run, Places, Holds;
    CommittedRoom(s3, n);
  }

  /** After a waiting loop that looked, the cached space is the room. */
  lemma {:induction false} LooksEndExact(s: Link, looks: seq<seq<Step>>)
    requires Inv(s) && AllConsumers(looks) && Runs(s, Interleaved(looks, Recompute))
    ensures var r := Run(s, Interleaved(looks, Recompute));
            && r.hole == s.hole && r.committed == s.committed
            && (looks == [] ==> r == s) && (looks != [] ==> r.tx.freeSpace == Room(r))
    decreases |looks|
  {
    hide Places, Holds;
    if looks != [] {
      TurnRuns(s, looks, Recompute);
      ConsumerRun(s, looks[0]);
      RecomputeExact(Run(s, looks[0]));
      LooksEndExact(Turned(s, looks, Recompute), looks[1..]);
    }
  }

  /** So a commit keeps the cached space honest, whatever the consumer does, exactly when the program has
      not looked again since it reserved the bytes, or commits none. */
  lemma CommitNeedsReservation(s: Link, n: nat, looks: seq<seq<Step>>)
    requires Inv(s) && Enabled(s, Reserve(n)) && AllConsumers(looks)
    requires (NextInv(s, Reserve(n)); Runs(Next(s, Reserve(n)), Interleaved(looks, Recompute)))
    ensures var s2 := Run(Next(s, Reserve(n)), Interleaved(looks, Recompute));
            (forall env | Runs(s2, env) && AllConsumer(env) :: s2.Ok() && n <= s2.hole.size && HonestAfter(s2, env, n))
            <==> looks == [] || n == 0
  {
    NextInv(s, Reserve(n));
    var s2 := Run(Next(s, Reserve(n)), Interleaved(looks, Recompute));
    forall env | Runs(s2, env) && AllConsumer(env) && (looks == [] || n == 0)
      ensures s2.Ok() && n <= s2.hole.size && HonestAfter(s2, env, n)
    {
      LateCommit(s, n, looks, env);
      ConsumerRun(s2, env);
    }
    LateCommit(s, n, looks, []);
    assert Runs(s2, []) && AllConsumer([]) && Run(s2, []) == s2;
    assert HonestAfter(s2, [], n) <==> Honest(Committed(s2, n));
  }

  ghost predicate HonestAfter(s: Link, env: seq<Step>, n: nat)
    requires Inv(s) && Runs(s, env) && n <= s.hole.size
  {
    Run(s, env).Ok() && Run(s, env).tx.offset + n <= 2 * |Run(s, env).mem| && Honest(Committed(Run(s, env), n))
  }

  /** A reservation as the code makes it, whether or not the books are in order. */
  function Reserved(s: Link, n: nat): Link {
    s.(tx := s.tx.(freeSpace := I32(s.tx.freeSpace - n)), granted := n)
  }

  /** The late commit of 48 bytes in a hole of 64, step by step: with the next reservation the program
      is given bytes that the consumer has not read. */
  lemma {:induction false} LateCommitState(s: Link)
    requires Init(s) && s.hole.size == 64
    ensures Runs(s, [Recompute, Reserve(48), Recompute])
    ensures var s3 := Run(s, [Recompute, Reserve(48), Recompute]);
            && s3.tx == s.tx.(freeSpace := 48, lastTop := s3.tx.lastTop)
            && s3 == s.(tx := s3.tx)
  {
    InitInv(s);
    var s1 := Next(s, Recompute);
    RecomputeExact(s);
    assert [Recompute, Reserve(48), Recompute][1..] == [Reserve(48), Recompute];
    assert s1 == s.(tx := s1.tx);
    NextInv(s1, Reserve(48));
    var s2 := Next(s1, Reserve(48));
    assert [Reserve(48), Recompute][1..] == [Recompute];
    RecomputeExact(s2);
    NextInv(s2, Recompute);
    assert [Recompute][1..] == [];
    hide Inv;
  }

  lemma {:induction false} LateCommitOverwrites(s: Link, b: Byte)
    requires Init(s) && s.hole.size == 64 && b != s.mem[0]
    ensures (InitInv(s); Runs(s, [Recompute, Reserve(48), Recompute]))
    ensures var s3 := (InitInv(s); Run(s, [Recompute, Reserve(48), Recompute]));
            && |s3.mem| == 64 && s3.tx.offset == 0
            && var s4 := Committed(s3, 48);
               && Enabled(s4, Reserve(48)) && s4.tx.offset == 48
               && var s5 := Reserved(s4, 48);
                  && Enabled(s5, Write(16, b)) && s5.tx.offset == 48
                  && var s6 := Written(s5, 16, b);
                     && s6.received == [] && |s6.committed| == 48 && s6.committed[0] == s.mem[0]
                     && Looked(s6).bottom == 0 && Looked(s6).top == 48
                     && Window(Looked(s6))[0] == b
  {
    InitInv(s);
    LateCommitState(s);
    hide Runs, Run, Inv;
  }

  // ---- A copy ----

  /** The steps of a copy from byte k on: before each byte, and before the commit, the consumer moves. */
  function CopySteps(data: seq<Byte>, k: nat, envs: seq<seq<Step>>): seq<Step>
    requires k <= |data| && |envs| == |data| - k + 1
    decreases |envs|
  {
    if k == |data| then envs[0] + [Publish(k)]
    else envs[0] + ([Write(k, data[k])] + CopySteps(data, k + 1, envs[1..]))
  }

  /** The consumer's moves are possible; the copy's own steps are shown to be. */
  ghost predicate CopyInterferes(s: Link, data: seq<Byte>, k: nat, envs: seq<seq<Step>>)
    requires Inv(s) && k <= |data| == s.granted && |envs| == |data| - k + 1
    decreases |envs|
  {
    && AllConsumer(envs[0]) && Runs(s, envs[0])
    && (k < |data| ==>
          (ConsumerRun(s, envs[0]);
           NextInv(Run(s, envs[0]), Write(k, data[k]));
           CopyInterferes(Next(Run(s, envs[0]), Write(k, data[k])), data, k + 1, envs[1..])))
  }

  /** One byte of a copy. */
  lemma CopyByte(s: Link, mem0: seq<Byte>, data: seq<Byte>, k: nat)
    requires Inv(s) && k < |data| == s.granted
    requires |mem0| == s.hole.size && s.mem == TxStream.RingWrite(mem0, s.tx.offset, data[..k])
    ensures var s' := Next(s, Write(k, data[k]));
            && Inv(s') && s' == s.(mem := s'.mem)
            && s'.mem == TxStream.RingWrite(mem0, s.tx.offset, data[..k + 1])
  {
    NextInv(s, Write(k, data[k]));
    TxStream.RingWriteStep(mem0, s.tx.offset, data[..k], data[k]);
    assert data[..k] + [data[k]] == data[..k + 1];
  }

  /** The commit at the end of a copy. */
  lemma CopyCommit(s: Link, mem0: seq<Byte>, data: seq<Byte>)
    requires Inv(s) && |data| == s.granted
    requires |mem0| == s.hole.size && s.mem == TxStream.RingWrite(mem0, s.tx.offset, data)
    ensures var s' := Next(s, Publish(|data|));
            && Inv(s') && s'.mem == s.mem && s'.committed == s.committed + data
            && s'.tx == TxStream.Commit(s.tx, |data|)
            && RecordPtr(s'.regs, s'.Consumer()) == s'.tx.lastBottom
  {
    NextInv(s, Publish(|data|));
    TxStream.RingWriteReadsBack(mem0, s.tx.offset, data);
  }

  /** Once space is reserved, the bytes of a copy and its commit are a run, with the consumer moving
      before each of them; it commits exactly the caller's bytes, publishes the limit, and leaves the hole
      as the straight copies do. */
  lemma {:induction false} CopyIsRun(s: Link, mem0: seq<Byte>, data: seq<Byte>, k: nat, envs: seq<seq<Step>>)
    requires Inv(s) && k <= |data| == s.granted && |envs| == |data| - k + 1
    requires |mem0| == s.hole.size && s.mem == TxStream.RingWrite(mem0, s.tx.offset, data[..k])
    requires CopyInterferes(s, data, k, envs)
    ensures Runs(s, CopySteps(data, k, envs))
    ensures var r := Run(s, CopySteps(data, k, envs));
            && r.mem == TxStream.RingWrite(mem0, s.tx.offset, data)
            && r.committed == s.committed + data
            && r.tx == TxStream.Commit(s.tx, |data|)
            && RecordPtr(r.regs, r.Consumer()) == r.tx.lastBottom
    decreases |envs|
  {
    hide Next, Holds, Positions, Places, TxStream.RingWrite, TxStream.Commit;
    var s1 := Run(s, envs[0]);
    ConsumerRun(s, envs[0]);
    if k == |data| {
      assert data[..k] == data;
      CopyCommit(s1, mem0, data);
      RunThrough(s, envs[0], Publish(k), []);
      assert [Publish(k)] + [] == [Publish(k)];
    } else {
      var step := Write(k, data[k]);
      CopyByte(s1, mem0, data, k);
      CopyIsRun(Next(s1, step), mem0, data, k + 1, envs[1..]);
      RunThrough(s, envs[0], step, CopySteps(data, k + 1, envs[1..]));
    }
  }

  lemma ReserveStep(s: Link, data: seq<Byte>)
    requires Inv(s) && Enabled(s, Reserve(|data|))
    ensures var r := Next(s, Reserve(|data|));
            && r.granted == |data| && r.mem == s.mem && r.committed == s.committed && r.hole == s.hole
            && r.producer == s.producer && |s.mem| == s.hole.size && r.tx.offset == s.tx.offset < |s.mem|
            && r.mem == TxStream.RingWrite(s.mem, s.tx.offset, data[..0])
  {
  }

  /** A whole call of dag_tx_stream_copy_bytes that finds the space: its looks, the reservation and the
      copy are one run, and it ends in the state that the call computes from the readings along it. */
  lemma CopyCallIsRun(s: Link, data: seq<Byte>, looks: seq<seq<Step>>, envs: seq<seq<Step>>)
    requires Inv(s) && |data| < TWO31 && AllConsumers(looks) && |envs| == |data| + 1
    requires Runs(s, Interleaved(looks, Recompute)) && LacksSpace(s, |data|, looks)
    requires |data| <= Run(s, Interleaved(looks, Recompute)).tx.freeSpace
    requires (var s1 := Run(s, Interleaved(looks, Recompute));
              NextInv(s1, Reserve(|data|)); CopyInterferes(Next(s1, Reserve(|data|)), data, 0, envs))
    ensures var steps := Interleaved(looks, Recompute) + ([Reserve(|data|)] + CopySteps(data, 0, envs));
            var call := TxStream.GetSpace(s.tx, |data|, Readings(s, looks, Recompute, s.producer));
            && Runs(s, steps) && call.granted && s.tx.offset < |s.mem|
            && var r := Run(s, steps);
               && r.mem == TxStream.RingWrite(s.mem, s.tx.offset, data)
               && r.committed == s.committed + data
               && r.tx == TxStream.Commit(call.tx, |data|)
               && RecordPtr(r.regs, r.Consumer()) == r.tx.lastBottom
  {
    hide Inv, Next, Enabled, Runs, Run, TxStream.Commit, TxStream.RingWrite, TxStream.GetSpace, CopySteps;
    GetSpaceIsRun(s, |data|, looks);
    var s1 := Run(s, Interleaved(looks, Recompute));
    var s2 := Next(s1, Reserve(|data|));
    NextInv(s1, Reserve(|data|));
    ReserveStep(s1, data);
    CopyIsRun(s2, s.mem, data, 0, envs);
    RunThrough(s, Interleaved(looks, Recompute), Reserve(|data|), CopySteps(data, 0, envs));
  }

  ghost predicate AllProducer(steps: seq<Step>) {
    forall i :: 0 <= i < |steps| ==> !IsConsumerStep(steps[i])
  }

  /** The consumer does not notice the producer's steps, except through the record register. */
  lemma {:induction false} ProducerRun(s: Link, env: seq<Step>)
    requires Inv(s) && Runs(s, env) && AllProducer(env)
    ensures var r := Run(s, env);
            && r.bottom == s.bottom && r.top == s.top && r.received == s.received
            && r.released == s.released && r.base == s.base
            && r.hole == s.hole && r.producer == s.producer
            && RecordPtr(r.regs, r.producer) == RecordPtr(s.regs, s.producer)
    decreases |env|
  {
    if env != [] {
      NextInv(s, env[0]);
      ProducerRun(Next(s, env[0]), env[1..]);
    }
  }

  ghost predicate AllProducers(envs: seq<seq<Step>>) {
    forall i :: 0 <= i < |envs| ==> AllProducer(envs[i])
  }

  /** The guard of the waiting loop of an advance: each look is made because at the one before, when
      `had` bytes had been committed in all, those that the consumer had not taken were too few. */
  ghost predicate LacksData(s: Link, mindata: nat, had: nat, envs: seq<seq<Step>>)
    requires Inv(s) && Runs(s, Interleaved(envs, Look))
    decreases |envs|
  {
    envs == [] ||
    (&& had - |s.received| < mindata
     && (TurnRuns(s, envs, Look);
         LacksData(Turned(s, envs, Look), mindata, |Run(s, envs[0]).committed|, envs[1..])))
  }

  /** The reading that the consumer would make shows the bytes committed and not taken. */
  lemma ReadingExact(s: Link)
    requires Inv(s)
    ensures var off := RxStream.CurOffset(s.hole, RecordPtr(s.regs, s.Consumer()));
            RxStream.Available(s.hole, Norm(s.bottom, s.hole.size), off) == |s.committed| - |s.received|
  {
    NormNorm(s.base, |s.received| - s.released, |s.committed| - |s.received|, s.hole.size);
    RxStream.AvailableExact(s.hole, Norm(s.bottom, s.hole.size), |s.committed| - |s.received|);
    hide RxStream.CurOffset, RxStream.Available;
  }

  /** The window is what `reading` shows, when `had` bytes had been committed. */
  ghost predicate JustLooked(s: Link, reading: nat, had: nat) {
    && s.bottom < s.hole.size && RxStream.CurOffset(s.hole, reading) < s.hole.size
    && s.top == RxStream.TopOf(s.hole, s.bottom, RxStream.CurOffset(s.hole, reading))
    && RxStream.Available(s.hole, s.bottom, RxStream.CurOffset(s.hole, reading)) == had - |s.received|
  }

  lemma LookStep(s: Link)
    requires Inv(s)
    ensures Inv(Next(s, Look)) && JustLooked(Next(s, Look), RecordPtr(s.regs, s.Consumer()), |s.committed|)
    ensures Next(s, Look) == s.(bottom := Norm(s.bottom, s.hole.size), top := Next(s, Look).top)
  {
    LookSees(s);
    LookInv(s);
    ReadingExact(s);
    hide RxStream.TopOf, RxStream.Available;
  }

  /** What an advance keeps while it waits. */
  ghost predicate SameAdvance(r: Link, s: Link) {
    && r.hole == s.hole && r.producer == s.producer && r.bottom == s.bottom && r.received == s.received
    && r.released == s.released && r.base == s.base
    && RecordPtr(r.regs, r.producer) == RecordPtr(s.regs, s.producer)
  }

  /** A turn of the waiting loop. */
  lemma LookTurn(s: Link, envs: seq<seq<Step>>)
    requires Inv(s) && s.bottom < s.hole.size && envs != [] && AllProducers(envs)
    requires Runs(s, Interleaved(envs, Look))
    ensures (TurnRuns(s, envs, Look);
             var s1, s2 := Run(s, envs[0]), Turned(s, envs, Look);
             && JustLooked(s2, RecordPtr(s1.regs, s1.Consumer()), |s1.committed|) && SameAdvance(s2, s)
             && s1.Consumer() == s2.Consumer() == s.Consumer())
  {
    TurnRuns(s, envs, Look);
    ProducerRun(s, envs[0]);
    LookStep(Run(s, envs[0]));
    hide Next, Inv, Runs, Run, Interleaved, JustLooked;
  }

  /** The window that a wait from `s` on leaves when it stops at offset `off`. */
  ghost predicate StopsAt(r: Link, s: Link, off: int) {
    SameAdvance(r, s) && off < s.hole.size && r.top == RxStream.TopOf(s.hole, s.bottom, off)
  }

  lemma StopsLater(r: Link, s2: Link, s: Link, off: int)
    requires StopsAt(r, s2, off) && SameAdvance(s2, s)
    ensures StopsAt(r, s, off)
  {
    hide RxStream.TopOf;
  }

  /** A look that shows too little is passed over. */
  lemma AwaitNext(s: Link, mindata: nat, reading: nat, had: nat, polls: seq<nat>)
    requires JustLooked(s, reading, had) && had - |s.received| < mindata && polls != []
    ensures RxStream.Await(s.hole, mindata, s.bottom, [reading] + polls)
         == RxStream.Await(s.hole, mindata, s.bottom, polls)
  {
    assert ([reading] + polls)[1..] == polls;
  }

  lemma AwaitEnds(s: Link, mindata: nat, reading: nat, had: nat)
    requires JustLooked(s, reading, had)
    ensures StopsAt(s, s, RxStream.Await(s.hole, mindata, s.bottom, [reading]))
  {
    hide RxStream.TopOf, RxStream.CurOffset, RxStream.Available;
  }

  /** The waiting loop of an advance, with the producer moving before each of its looks: the window that
      the run ends with is the one that the call computes from the readings along it. */
  lemma {:induction false} AwaitIsRun(s: Link, mindata: nat, reading: nat, had: nat, envs: seq<seq<Step>>)
    requires Inv(s) && JustLooked(s, reading, had) && AllProducers(envs)
    requires Runs(s, Interleaved(envs, Look)) && LacksData(s, mindata, had, envs)
    ensures var polls := [reading] + Readings(s, envs, Look, s.Consumer());
            StopsAt(Run(s, Interleaved(envs, Look)), s, RxStream.Await(s.hole, mindata, s.bottom, polls))
    decreases |envs|
  {
    assert s.bottom < s.hole.size;
    hide Inv, Next, Enabled, StopsAt, JustLooked, RxStream.Await, RxStream.CurOffset, RxStream.Available;
    if envs == [] {
      AwaitEnds(s, mindata, reading, had);
      assert [reading] + [] == [reading];
    } else {
      LookTurn(s, envs);
      TurnRuns(s, envs, Look);
      var s1, s2 := Run(s, envs[0]), Turned(s, envs, Look);
      var seen, later := RecordPtr(s1.regs, s1.Consumer()), Readings(s, envs, Look, s.Consumer());
      assert later == [seen] + Readings(s2, envs[1..], Look, s2.Consumer());
      hide Runs, Run, Turned, Readings, Interleaved, AllProducer;
      AwaitIsRun(s2, mindata, seen, |s1.committed|, envs[1..]);
      AwaitNext(s, mindata, reading, had, later);
      StopsLater(Run(s2, Interleaved(envs[1..], Look)), s2, s, RxStream.Await(s.hole, mindata, s.bottom, later));
    }
  }

  /** The steps of an advance: it looks, writes the limit register, and looks again and again. */
  function AdvanceSteps(env: seq<Step>, envs: seq<seq<Step>>): seq<Step> {
    [Look] + (env + ([Release] + Interleaved(envs, Look)))
  }

  /** The state in which an advance has just written its limit register. */
  ghost function Freed(s: Link, env: seq<Step>): (r: Link)
    requires Inv(s) && Runs(s, [Look] + (env + [Release]))
    ensures Inv(r)
  {
    Run(s, [Look] + (env + [Release]))
  }

  lemma FreedIs(s: Link, env: seq<Step>)
    requires Inv(s) && AllProducer(env) && Runs(s, [Look] + (env + [Release]))
    ensures var r := Freed(s, env);
            && JustLooked(r, RecordPtr(s.regs, s.Consumer()), |s.committed|)
            && r.hole == s.hole && r.producer == s.producer
            && r.bottom == r.base == Norm(s.bottom, s.hole.size)
            && r.received == s.received && r.released == |s.received|
            && RecordPtr(r.regs, r.producer) == s.hole.bus + RxStream.WrSafe(r.base, s.hole.size)
  {
    hide Inv, Looked, RxStream.WrSafe, RxStream.TopOf, RxStream.CurOffset, RxStream.Available;
    RunSplit(s, [Look], env + [Release]);
    LookStep(s);
    var s1 := Next(s, Look);
    assert [Look][1..] == [];
    assert Run(s, [Look]) == s1;
    RunSplit(s1, env, [Release]);
    ProducerRun(s1, env);
    var s2 := Run(s1, env);
    NextInv(s2, Release);
    assert [Release][1..] == [];
    assert Run(s2, [Release]) == Next(s2, Release);
    hide Runs, Run;
  }

  /** A call of dag_advance_stream over the readings that it makes, with the producer moving between
      them, is a run: it frees everything taken so far, tells the producer so, and returns the window that
      it computes from the readings. */
  lemma AdvanceIsRun(s: Link, mindata: nat, env: seq<Step>, envs: seq<seq<Step>>)
    requires Inv(s) && AllProducer(env) && AllProducers(envs)
    requires Runs(s, AdvanceSteps(env, envs))
    requires (AdvanceSplit(s, env, envs); LacksData(Freed(s, env), mindata, |s.committed|, envs))
    ensures var r, b := Run(s, AdvanceSteps(env, envs)), Norm(s.bottom, s.hole.size);
            var later := (AdvanceSplit(s, env, envs); Readings(Freed(s, env), envs, Look, s.Consumer()));
            var polls := [RecordPtr(s.regs, s.Consumer())] + later;
            var off := RxStream.Await(s.hole, mindata, b, polls);
            && off <= s.hole.size && r.bottom == b && r.top == RxStream.TopOf(s.hole, b, off)
            && r.received == s.received && r.released == |s.received| && r.base == b
            && RecordPtr(r.regs, r.producer) == s.hole.bus + RxStream.WrSafe(b, s.hole.size)
  {
    AdvanceSplit(s, env, envs);
    FreedIs(s, env);
    hide Freed, Next, Inv, RxStream.TopOf, RxStream.CurOffset, RxStream.WrSafe, RxStream.Available;
    AwaitIsRun(Freed(s, env), mindata, RecordPtr(s.regs, s.Consumer()), |s.committed|, envs);
  }

  lemma AdvanceSplit(s: Link, env: seq<Step>, envs: seq<seq<Step>>)
    requires Inv(s) && Runs(s, AdvanceSteps(env, envs))
    ensures Runs(s, [Look] + (env + [Release])) && Runs(Freed(s, env), Interleaved(envs, Look))
    ensures Run(s, AdvanceSteps(env, envs)) == Run(Freed(s, env), Interleaved(envs, Look))
  {
    hide Next, Enabled, Inv, Runs, Run;
    assert AdvanceSteps(env, envs) == [Look] + (env + [Release]) + Interleaved(envs, Look);
    RunSplit(s, [Look] + (env + [Release]), Interleaved(envs, Look));
  }
}
