/** Calls of dag_rx_stream_next_record as runs of the machine, and headers outside the mapping. */
module RecordRuns {
  import opened Ring
  import opened Wrappers
  import opened RxStream
  import opened RecordReader

  // ---- A run with one call in it is that call ----

  /** What a call gets to see along a run: the memory when it reads the header, and the register at the
      end of each of its two waits. */
  datatype Sights = Sights(mem: seq<Byte>, poll1: nat, poll2: nat)

  /** What a step adds to the sights of those after it. */
  function Saw(w: World, step: Step, later: Sights): Sights
    requires step.Look? ==> w.released <= step.seen
  {
    match step
    case Header => later.(mem := w.mem)
    case Look(seen) =>
      if w.call.Asking? then later.(poll1 := Reading(w, seen)) else later.(poll2 := Reading(w, seen))
    case _ => later
  }

  ghost function Sees(w: World, recs: seq<seq<Byte>>, steps: seq<Step>): (r: Sights)
    requires Inv(w, recs) && Runs(w, recs, steps)
    ensures |r.mem| == w.hole.size
    decreases |steps|
  {
    if steps == [] then Sights(w.mem, 0, 0)
    else
      NextInv(w, recs, steps[0]);
      var later := Sees(Next(w, recs, steps[0]), recs, steps[1..]);
      Saw(w, steps[0], later)
  }

  /** What is still to come of the call that is under way, if it sees that. */
  function Rest(w: World, s: Sights): Outcome
    requires w.hole.Ok() && |s.mem| == w.hole.size
  {
    match w.call
    case Between(reply) => Outcome(w.rx, None, reply)
    case Asking =>
      var a := Refill(w.hole, w.mindata, w.rx, w.rx.offset, RECORD_HEADER, None, [s.poll1]);
      if a.stop.Some? then Outcome(a.rx, a.limit, a.stop.value)
      else WithHeader(w.hole, w.mindata, a, s.mem, [s.poll2])
    case Seen(a) => WithHeader(w.hole, w.mindata, a, s.mem, [s.poll2])
    case Taking(a, rlen) => Finish(w.hole, w.mindata, a, rlen, [s.poll2])
  }

  /** A run leaves what an outcome says; `limit` is the limit register before. */
  predicate Leaves(v: World, limit: nat, o: Outcome) {
    v.rx == o.rx && v.call == Between(o.reply) && v.limit == if o.limit.Some? then o.limit.value else limit
  }

  predicate NoAsk(steps: seq<Step>) {
    forall i :: 0 <= i < |steps| ==> steps[i] != Ask
  }

  /** A limit written before the header is read only shows in the outcome when none is written after. */
  lemma LimitAside(h: Hole, mindata: nat, a: Refilled, mem: seq<Byte>, polls: seq<nat>)
    requires h.Ok() && |mem| == h.size && polls != []
    ensures var o, o' := WithHeader(h, mindata, a, mem, polls), WithHeader(h, mindata, a.(limit := None), mem, polls);
            o == o'.(limit := if o'.limit.Some? then o'.limit else a.limit)
  {
    hide TypeAt, RlenAt, LimitFor, Await, TopOf;
  }

  lemma AskRest(w: World, recs: seq<seq<Byte>>, s: Sights, v: World)
    requires Inv(w, recs) && w.call.Between? && |s.mem| == w.hole.size
    requires Leaves(v, Asked(w, Wanted(w, recs)).limit, Rest(Asked(w, Wanted(w, recs)), s))
    ensures Leaves(v, w.limit, NextRecord(w.hole, w.mindata, w.rx, s.mem, [s.poll1], [s.poll2]))
  {
    var rx := Begin(w.rx);
    var a := Refill(w.hole, w.mindata, rx, rx.offset, RECORD_HEADER, None, [s.poll1]);
    LimitAside(w.hole, w.mindata, a, s.mem, [s.poll2]);
    assert w.hole.Ok() && |w.mem| == w.hole.size;
    hide Inv, WithHeader, LimitFor, Wanted, Await, TopOf, Norm;
  }

  lemma AskLookRest(w: World, recs: seq<seq<Byte>>, seen: nat, s: Sights, v: World)
    requires Inv(w, recs) && w.call.Asking? && Enabled(w, recs, Look(seen)) && |s.mem| == w.hole.size
    requires LookedAt(w, seen).hole == w.hole && LookedAt(w, seen).mindata == w.mindata
    requires Leaves(v, w.limit, Rest(LookedAt(w, seen), s))
    ensures Leaves(v, w.limit, Rest(w, s.(poll1 := Reading(w, seen))))
  {
    var a := Refill(w.hole, w.mindata, w.rx, w.rx.offset, RECORD_HEADER, None, [Reading(w, seen)]);
    RefillIs(w, Flat(recs), Wanted(w, recs), w.rx, w.rx.offset, RECORD_HEADER, seen);
    LimitAside(w.hole, w.mindata, a, s.mem, [s.poll2]);
    hide Inv, CardInv, Freed, Refill, WithHeader, Flat, Wanted, Shown;
  }

  lemma TakeLookRest(w: World, recs: seq<seq<Byte>>, seen: nat, s: Sights, v: World)
    requires Inv(w, recs) && w.call.Taking? && Enabled(w, recs, Look(seen)) && |s.mem| == w.hole.size
    requires LookedAt(w, seen).hole == w.hole
    requires Leaves(v, w.limit, Rest(LookedAt(w, seen), s))
    ensures Leaves(v, w.limit, Rest(w, s.(poll2 := Reading(w, seen))))
  {
    RefillIs(w, Flat(recs), Wanted(w, recs), w.call.a.rx, w.call.a.next, w.call.rlen, seen);
    hide Inv, CardInv, Freed, Refill, Flat, Wanted, Shown, View;
  }

  lemma HeaderRest(w: World, recs: seq<seq<Byte>>, s: Sights, v: World)
    requires Inv(w, recs) && w.call.Seen? && |s.mem| == w.hole.size && HeaderRead(w, Wanted(w, recs)).hole == w.hole
    requires HeaderRead(w, Wanted(w, recs)).mindata == w.mindata
    requires Leaves(v, HeaderRead(w, Wanted(w, recs)).limit, Rest(HeaderRead(w, Wanted(w, recs)), s))
    ensures |w.mem| == w.hole.size && Leaves(v, w.limit, Rest(w, s.(mem := w.mem)))
  {
    assert w.call.a.limit == None;
    hide Inv, Flat, Wanted, View, TypeAt, RlenAt, LimitFor, Await, TopOf;
  }

  lemma StepRest(w: World, recs: seq<seq<Byte>>, step: Step, s: Sights, v: World)
    requires Inv(w, recs) && Enabled(w, recs, step) && step != Ask && |s.mem| == w.hole.size
    requires (NextInv(w, recs, step); Leaves(v, Next(w, recs, step).limit, Rest(Next(w, recs, step), s)))
    ensures |w.mem| == w.hole.size && Leaves(v, w.limit, Rest(w, Saw(w, step, s)))
  {
    NextInv(w, recs, step);
    hide Inv, Rest, Leaves, LookedAt, HeaderRead;
    match step
    case Capture(b) =>
    case Header => HeaderRest(w, recs, s, v);
    case Look(seen) =>
      if w.call.Asking? {
        AskLookRest(w, recs, seen, s, v);
      } else {
        TakeLookRest(w, recs, seen, s, v);
      }
  }

  /** Whatever the card does in between, the rest of a run up to the end of the call is the rest of the
      call, over what it sees along that run. */
  lemma {:induction false} RestIsRun(w: World, recs: seq<seq<Byte>>, steps: seq<Step>)
    requires Inv(w, recs) && Runs(w, recs, steps) && NoAsk(steps) && Run(w, recs, steps).call.Between?
    ensures Leaves(Run(w, recs, steps), w.limit, Rest(w, Sees(w, recs, steps)))
    decreases |steps|
  {
    if steps != [] {
      hide Inv, Rest, Leaves, Saw, Next, Enabled;
      NextInv(w, recs, steps[0]);
      var v := Next(w, recs, steps[0]);
      RestIsRun(v, recs, steps[1..]);
      StepRest(w, recs, steps[0], Sees(v, recs, steps[1..]), Run(v, recs, steps[1..]));
    }
  }

  /** A run that begins one call and sees it end does what dag_rx_stream_next_record does over the memory
      and the readings along that run: same state, same reply, same limit register. */
  lemma CallIsRun(w: World, recs: seq<seq<Byte>>, steps: seq<Step>)
    requires Inv(w, recs) && steps != [] && steps[0] == Ask && NoAsk(steps[1..])
    requires Runs(w, recs, steps) && Run(w, recs, steps).call.Between?
    ensures var s := Sees(w, recs, steps);
            Leaves(Run(w, recs, steps), w.limit,
                   NextRecord(w.hole, w.mindata, w.rx, s.mem, [s.poll1], [s.poll2]))
  {
    NextInv(w, recs, Ask);
    var v := Next(w, recs, Ask);
    RestIsRun(v, recs, steps[1..]);
    AskRest(w, recs, Sees(v, recs, steps[1..]), Run(w, recs, steps));
  }

  // ---- Headers outside the mapping ----

  /** An advance that goes on has all the bytes it was for inside the mapping. */
  lemma RefilledIsMapped(h: Hole, mindata: nat, rx: Rx, next: nat, n: nat, limit: Option<nat>, polls: seq<nat>)
    requires h.Ok() && polls != [] && MustAdvance(h, rx, n)
    ensures var a := Refill(h, mindata, rx, next, n, limit, polls); a.stop.None? ==> a.next + n <= h.size + h.extra
  {
    hide LimitFor, Await;
  }

  /** In any state, whatever the readings, a call looks for a header outside the mapping exactly when the
      offset kept from the last call is that far up and the cached counters make it skip the advance. */
  lemma UnmappedExactly(h: Hole, mindata: nat, rx: Rx, mem: seq<Byte>, polls1: seq<nat>, polls2: seq<nat>)
    requires h.Ok() && |mem| == h.size && polls1 != [] && polls2 != []
    ensures var b := Begin(rx);
            NextRecord(h, mindata, rx, mem, polls1, polls2).reply.Unmapped? <==>
              b.freeSpace >= 16 && b.processed + 16 <= h.extra && b.offset + 12 > h.size + h.extra
  {
    if MustAdvance(h, Begin(rx), RECORD_HEADER) {
      RefilledIsMapped(h, mindata, Begin(rx), Begin(rx).offset, RECORD_HEADER, None, polls1);
    }
    hide TypeAt, RlenAt, Await, TopOf, LimitFor, Norm;
  }

  /** A card that has room is not at its limit. */
  lemma RoomIsSeen(w: World)
    requires Registers(w) && w.captured + SAFETY_WINDOW < w.released + w.hole.size
    ensures w.hole.bus + w.card != w.limit
  {
    hide Lap;
  }

  /** The card writes bytes `s` to `e` of the stream. */
  function Captures(log: seq<Byte>, s: nat, e: nat): (r: seq<Step>)
    requires s <= e <= |log|
    decreases e - s
  {
    if s == e then [] else [Capture(log[s])] + Captures(log, s + 1, e)
  }

  /** `v` is reached from `w` by `steps`. */
  ghost predicate Reach(w: World, recs: seq<seq<Byte>>, steps: seq<Step>, v: World)
    requires Inv(w, recs)
  {
    Runs(w, recs, steps) && v == Run(w, recs, steps)
  }

  lemma ReachFirst(w: World, recs: seq<seq<Byte>>, step: Step, b: seq<Step>, u: World)
    requires Inv(w, recs) && Enabled(w, recs, step)
    requires (NextInv(w, recs, step); Reach(Next(w, recs, step), recs, b, u))
    ensures Reach(w, recs, [step] + b, u)
  {
    hide Inv, Next, Enabled, Fits;
    NextInv(w, recs, step);
    assert ([step] + b)[1..] == b;
  }

  lemma ReachNothing(w: World, recs: seq<seq<Byte>>, v: World)
    requires Inv(w, recs) && Reach(w, recs, [], v)
    ensures v == w
  {
    hide Inv, Next, Enabled;
  }

  lemma ReachRest(w: World, recs: seq<seq<Byte>>, a: seq<Step>, v: World)
    requires Inv(w, recs) && Reach(w, recs, a, v) && a != []
    ensures Enabled(w, recs, a[0])
    ensures (NextInv(w, recs, a[0]); Reach(Next(w, recs, a[0]), recs, a[1..], v))
  {
    NextInv(w, recs, a[0]);
    hide Inv, Next, Enabled;
  }

  lemma {:induction false} ReachOn(w: World, recs: seq<seq<Byte>>, a: seq<Step>, v: World, b: seq<Step>, u: World)
    requires Inv(w, recs) && Inv(v, recs) && Reach(w, recs, a, v) && Reach(v, recs, b, u)
    ensures Reach(w, recs, a + b, u)
    decreases |a|
  {
    hide Inv, Next, Enabled, Reach, Fits, Runs, Run;
    if a == [] {
      ReachNothing(w, recs, v);
      assert a + b == b;
    } else {
      ReachRest(w, recs, a, v);
      NextInv(w, recs, a[0]);
      ReachOn(Next(w, recs, a[0]), recs, a[1..], v, b, u);
      ReachFirst(w, recs, a[0], a[1..] + b, u);
      assert [a[0]] + (a[1..] + b) == a + b;
    }
  }

  /** The card can go on as long as it keeps its distance, with no call making progress. */
  lemma {:induction false} CapturesRun(w: World, recs: seq<seq<Byte>>, e: nat) returns (u: World)
    requires Inv(w, recs)
    requires w.captured <= e <= |Flat(recs)| && e + SAFETY_WINDOW <= w.released + w.hole.size
    ensures Inv(u, recs) && Reach(w, recs, Captures(Flat(recs), w.captured, e), u)
    ensures u == w.(mem := u.mem, card := u.card, captured := e)
    decreases e - w.captured
  {
    hide Flat, Holds, Lap, ReaderInv, GoodRecords;
    if w.captured == e {
      u := w;
    } else {
      var step := Capture(Flat(recs)[w.captured]);
      RoomIsSeen(w);
      assert w.card < |w.mem|;
      hide Inv, Registers, Reach;
      NextInv(w, recs, step);
      u := CapturesRun(Next(w, recs, step), recs, e);
      ReachFirst(w, recs, step, Captures(Flat(recs), w.captured + 1, e), u);
    }
  }

  const SMALL: Hole := Hole(64, 0, 16)

  ghost predicate Example(recs: seq<seq<Byte>>) {
    GoodRecords(recs) && |recs| == 3 && |recs[0]| == |recs[1]| == 40 && |recs[2]| == 24
  }

  lemma ExampleStarts(recs: seq<seq<Byte>>)
    requires Example(recs)
    ensures Start(recs, 0) == 0 && Start(recs, 1) == 40 && Start(recs, 2) == 80 && |Flat(recs)| == 104
  {
    assert recs[..0] == [];
    RecordAt(recs, 0);
    RecordAt(recs, 1);
    RecordAt(recs, 2);
    StartEnds(recs);
  }

  predicate Stands(w: World, captured: nat, released: nat, handed: nat, rx: Rx, call: Call) {
    && w.hole == SMALL && w.mindata == 0 && w.captured == captured && w.released == released
    && |w.returned| == handed && w.rx == rx && w.call == call
  }

  /** The next record wanted is at place `at`, and that is byte `wanted` of the stream. */
  predicate At(w: World, recs: seq<seq<Byte>>, wanted: nat, at: nat)
    requires |w.returned| <= |recs|
  {
    w.hole == SMALL && w.mindata == 0 && Wanted(w, recs) == wanted && Lap(wanted, 64) == at
  }

  /** In the example a call advances first. */
  lemma ExampleAsk(w: World, recs: seq<seq<Byte>>, wanted: nat, at: nat, seen: nat) returns (u: World)
    requires Inv(w, recs) && At(w, recs, wanted, at) && w.call.Between? && Begin(w.rx).freeSpace == 0
    requires wanted + RECORD_HEADER <= seen <= w.captured && at + RECORD_HEADER <= 80
    ensures Inv(u, recs) && Reach(w, recs, [Ask, Look(seen)], u) && At(u, recs, wanted, at)
    ensures var rx := Rx(Begin(w.rx).offset, Min(seen - wanted, 80 - at), 0, false);
            Stands(u, w.captured, wanted, |w.returned|, rx, Call.Seen(Refilled(rx, at, None, None)))
  {
    NextInv(w, recs, Ask);
    var m := Next(w, recs, Ask);
    NextInv(m, recs, Look(seen));
    u := Next(m, recs, Look(seen));
    AskLookIs(m, recs, seen);
    assert m.base == Lap(m.released, 64);
    hide Inv, Lap, LookedAt, Flat;
    ReachFirst(m, recs, Look(seen), [], u);
    assert [Look(seen)] + [] == [Look(seen)] && [Ask] + [Look(seen)] == [Ask, Look(seen)];
    ReachFirst(w, recs, Ask, [Look(seen)], u);
  }

  /** Having seen the header, it advances a second time, */
  lemma ExampleHeader(w: World, recs: seq<seq<Byte>>, wanted: nat, at: nat) returns (u: World)
    requires Inv(w, recs) && At(w, recs, wanted, at) && w.call.Seen? && w.released == wanted
    requires MustAdvance(SMALL, w.call.a.rx, WantedLen(w, recs)) && w.call.a.next + 12 <= 80
    ensures Inv(u, recs) && Reach(w, recs, [Header], u) && At(u, recs, wanted, at)
    ensures Stands(u, w.captured, w.released, |w.returned|, w.rx, Taking(w.call.a, WantedLen(w, recs)))
  {
    HeaderIs(w, recs);
    hide HeaderRead, Inv, Flat, Lap;
    NextInv(w, recs, Header);
    u := Next(w, recs, Header);
    ReachFirst(w, recs, Header, [], u);
    assert [Header] + [] == [Header];
  }

  /** and hands out the record, or not. */
  lemma ExampleLook(w: World, recs: seq<seq<Byte>>, wanted: nat, at: nat, seen: nat) returns (u: World)
    requires Inv(w, recs) && At(w, recs, wanted, at) && w.call.Taking?
    requires wanted <= seen <= w.captured && at <= 80
    ensures Inv(u, recs) && Reach(w, recs, [Look(seen)], u)
    ensures var n, f := WantedLen(w, recs), Min(seen - wanted, 80 - at);
            if f < n then
              Stands(u, w.captured, wanted, |w.returned|, Rx(w.rx.offset, f, 0, false), Between(Again))
            else
              Stands(u, w.captured, wanted, |w.returned| + 1, Rx(at + n, f - n, n, false), Between(Record(at, n)))
  {
    TakeLookIs(w, recs, seen);
    assert w.base == Lap(w.released, 64) && w.released == Wanted(w, recs);
    assert w.call.a.rx.offset == w.rx.offset && !w.call.a.rx.first;
    hide LookedAt, Inv, Flat, Lap, View;
    NextInv(w, recs, Look(seen));
    u := Next(w, recs, Look(seen));
    ReachFirst(w, recs, Look(seen), [], u);
    assert [Look(seen)] + [] == [Look(seen)];
  }

  /** The example: two calls hand out records of 40 bytes, the second after the card has gone on in its
      middle; the third finds 16 of the 24 bytes of the last record and says EAGAIN; the fourth does not
      look again. */
  function Call1(log: seq<Byte>): seq<Step>
    requires |log| == 104
  {
    Captures(log, 0, 40) + [Ask, Look(40)] + [Header] + [Look(40)]
  }

  function Call2(log: seq<Byte>): seq<Step>
    requires |log| == 104
  {
    Captures(log, 40, 56) + [Ask, Look(56)] + [Header] + Captures(log, 56, 80) + [Look(80)]
  }

  function Call3(log: seq<Byte>): seq<Step>
    requires |log| == 104
  {
    Captures(log, 80, 96) + [Ask, Look(96)] + [Header] + [Look(96)]
  }

  function ExampleRun(log: seq<Byte>): seq<Step>
    requires |log| == 104
  {
    Call1(log) + Call2(log) + Call3(log) + [Ask, Header]
  }

  lemma RunCall1(w: World, recs: seq<seq<Byte>>) returns (u: World)
    requires Inv(w, recs) && Example(recs) && Stands(w, 0, 0, 0, w.rx, w.call) && w.call.Between? && w.rx.first
    ensures Inv(u, recs) && |Flat(recs)| == 104 && Reach(w, recs, Call1(Flat(recs)), u)
    ensures Stands(u, 40, 0, 1, Rx(40, 0, 40, false), Between(Record(0, 40)))
  {
    ExampleStarts(recs);
    assert At(w, recs, 0, 0);
    hide Flat, Inv, Reach, Captures, GoodRecords, Start, Lap;
    var a := Captures(Flat(recs), 0, 40);
    var v := CapturesRun(w, recs, 40);
    u := ExampleAsk(v, recs, 0, 0, 40);
    ReachOn(w, recs, a, v, [Ask, Look(40)], u);
    v := ExampleHeader(u, recs, 0, 0);
    ReachOn(w, recs, a + [Ask, Look(40)], u, [Header], v);
    u := ExampleLook(v, recs, 0, 0, 40);
    ReachOn(w, recs, a + [Ask, Look(40)] + [Header], v, [Look(40)], u);
  }

  lemma RunCall2(w: World, recs: seq<seq<Byte>>) returns (u: World)
    requires Inv(w, recs) && Example(recs) && Stands(w, 40, 0, 1, Rx(40, 0, 40, false), w.call) && w.call.Between?
    ensures Inv(u, recs) && |Flat(recs)| == 104 && Reach(w, recs, Call2(Flat(recs)), u)
    ensures Stands(u, 80, 40, 2, Rx(80, 0, 40, false), Between(Record(40, 40)))
  {
    ExampleStarts(recs);
    assert At(w, recs, 40, 40);
    hide Flat, Inv, Reach, Captures, GoodRecords, Start, Lap;
    var a := Captures(Flat(recs), 40, 56);
    var v := CapturesRun(w, recs, 56);
    u := ExampleAsk(v, recs, 40, 40, 56);
    ReachOn(w, recs, a, v, [Ask, Look(56)], u);
    v := ExampleHeader(u, recs, 40, 40);
    ReachOn(w, recs, a + [Ask, Look(56)], u, [Header], v);
    var b := Captures(Flat(recs), 56, 80);
    u := CapturesRun(v, recs, 80);
    ReachOn(w, recs, a + [Ask, Look(56)] + [Header], v, b, u);
    v := ExampleLook(u, recs, 40, 40, 80);
    ReachOn(w, recs, a + [Ask, Look(56)] + [Header] + b, u, [Look(80)], v);
    u := v;
  }

  lemma RunCall3(w: World, recs: seq<seq<Byte>>) returns (u: World)
    requires Inv(w, recs) && Example(recs) && Stands(w, 80, 40, 2, Rx(80, 0, 40, false), w.call) && w.call.Between?
    ensures Inv(u, recs) && |Flat(recs)| == 104 && Reach(w, recs, Call3(Flat(recs)), u)
    ensures Stands(u, 96, 80, 2, Rx(80, 16, 0, false), Between(Again))
  {
    ExampleStarts(recs);
    assert At(w, recs, 80, 16);
    hide Flat, Inv, Reach, Captures, GoodRecords, Start, Lap;
    var a := Captures(Flat(recs), 80, 96);
    var v := CapturesRun(w, recs, 96);
    u := ExampleAsk(v, recs, 80, 16, 96);
    ReachOn(w, recs, a, v, [Ask, Look(96)], u);
    v := ExampleHeader(u, recs, 80, 16);
    ReachOn(w, recs, a + [Ask, Look(96)], u, [Header], v);
    u := ExampleLook(v, recs, 80, 16, 96);
    ReachOn(w, recs, a + [Ask, Look(96)] + [Header], v, [Look(96)], u);
  }

  lemma RunCall4(w: World, recs: seq<seq<Byte>>) returns (u: World)
    requires Inv(w, recs) && Example(recs) && Stands(w, 96, 80, 2, Rx(80, 16, 0, false), w.call) && w.call.Between?
    ensures Inv(u, recs) && Reach(w, recs, [Ask, Header], u) && u.call == Between(Unmapped(80))
  {
    NextInv(w, recs, Ask);
    var m := Next(w, recs, Ask);
    NextInv(m, recs, Header);
    u := Next(m, recs, Header);
    HeaderIs(m, recs);
    hide HeaderRead, Inv, Flat;
    ReachFirst(m, recs, Header, [], u);
    assert [Header] + [] == [Header] && [Ask] + [Header] == [Ask, Header];
    ReachFirst(w, recs, Ask, [Header], u);
  }

  /** It does happen. A fresh stream on 64 bytes, 16 of them mapped twice, with good records of 40, 40 and
      24 bytes: the fourth call of this run looks for a header at offset 80, where the mapping ends. */
  lemma UnmappedHappens(w: World, recs: seq<seq<Byte>>)
    requires Init(w) && w.hole == SMALL && w.mindata == 0 && Example(recs)
    ensures |Flat(recs)| == 104 && Inv(w, recs) && Runs(w, recs, ExampleRun(Flat(recs)))
    ensures Run(w, recs, ExampleRun(Flat(recs))).call == Between(Unmapped(80))
  {
    InitInv(w, recs);
    hide Inv, Flat, Example, Runs, Run, Call1, Call2, Call3;
    var v1 := RunCall1(w, recs);
    var v2 := RunCall2(v1, recs);
    var log := Flat(recs);
    ReachOn(w, recs, Call1(log), v1, Call2(log), v2);
    var v3 := RunCall3(v2, recs);
    ReachOn(w, recs, Call1(log) + Call2(log), v2, Call3(log), v3);
    var v4 := RunCall4(v3, recs);
    ReachOn(w, recs, Call1(log) + Call2(log) + Call3(log), v3, [Ask, Header], v4);
  }

  // ---- Multiples of 8 ----

  predicate By8(n: nat) {
    n % 8 == 0
  }

  lemma By8Sum(a: nat, b: nat)
    requires By8(a) && By8(b)
    ensures By8(a + b) && (b <= a ==> By8(a - b))
  {
  }

  /** The whole hole is mapped twice, and holes, records and places are multiples of 8. */
  ghost predicate Aligned(w: World, recs: seq<seq<Byte>>) {
    && w.hole.extra == w.hole.size && By8(w.hole.size)
    && (forall i :: 0 <= i < |recs| ==> By8(|recs[i]|))
    && By8(w.base) && By8(w.released)
    && Begin(w.rx).offset + RECORD_HEADER <= 2 * w.hole.size
    && !SaysUnmapped(w)
  }

  predicate SaysUnmapped(w: World) {
    w.call.Between? && w.call.reply.Unmapped?
  }

  lemma {:induction false} StartAligned(recs: seq<seq<Byte>>, i: nat)
    requires i <= |recs| && forall j :: 0 <= j < |recs| ==> By8(|recs[j]|)
    ensures By8(Start(recs, i))
  {
    if i == 0 {
      assert recs[..0] == [];
    } else {
      hide Flat, By8, Start;
      StartAligned(recs, i - 1);
      RecordAt(recs, i - 1);
      By8Sum(Start(recs, i - 1), |recs[i - 1]|);
    }
  }

  /** Where a reader with its books in order looks is a multiple of 8 again. */
  lemma BooksAligned(w: World, wanted: nat, rlen: nat, rx: Rx, next: nat)
    requires By8(w.hole.size) && By8(w.base) && By8(w.released) && By8(wanted)
    requires BooksInv(w, wanted, rlen, rx, next)
    ensures By8(Norm(next, w.hole.size))
  {
    hide By8;
    By8Sum(wanted, w.released);
    By8Sum(w.base, if next == w.base + w.hole.size then w.hole.size else wanted - w.released);
    By8Sum(next, w.hole.size);
  }

  /** Freeing up to the wanted record keeps places aligned. */
  lemma FreeAligned(w: World, recs: seq<seq<Byte>>, rx: Rx, next: nat)
    requires Inv(w, recs) && Aligned(w, recs) && BooksInv(w, Wanted(w, recs), WantedLen(w, recs), rx, next)
    ensures var v := Free(w, next, Wanted(w, recs)); By8(v.base) && By8(v.released) && v.hole == w.hole
  {
    StartAligned(recs, |w.returned|);
    hide Inv, Flat, Start, GoodRecords, LimitFor, BooksInv, Norm, By8;
    BooksAligned(w, Wanted(w, recs), WantedLen(w, recs), rx, next);
  }

  lemma AskAligned(w: World, recs: seq<seq<Byte>>)
    requires Inv(w, recs) && Aligned(w, recs) && Enabled(w, recs, Ask)
    ensures Aligned(Asked(w, Wanted(w, recs)), recs)
  {
    assert w.hole.Ok();
    FreeAligned(w, recs, Begin(w.rx), Begin(w.rx).offset);
    hide Inv, MustAdvance, LimitFor, Wanted, Norm;
  }

  lemma LookAligned(w: World, recs: seq<seq<Byte>>, seen: nat)
    requires Inv(w, recs) && Aligned(w, recs) && w.call.Asking? && Enabled(w, recs, Look(seen))
    ensures Aligned(LookedAt(w, seen), recs)
  {
    AskLookIs(w, recs, seen);
    assert !w.rx.first;
    hide LookedAt, Inv;
  }

  /** After a record, the offset is less than a lap after an aligned base, and the card keeps its
      distance. */
  lemma RecordOffset(w: World, wanted: nat, rlen: nat)
    requires w.hole.Ok() && By8(w.hole.size) && By8(w.base) && w.base < w.hole.size
    requires wanted <= w.captured && w.captured + SAFETY_WINDOW <= w.released + w.hole.size && w.released < wanted
    requires BooksInv(w, wanted, rlen, Begin(w.rx), Begin(w.rx).offset)
    ensures Begin(w.rx).offset + RECORD_HEADER <= 2 * w.hole.size
  {
  }

  /** Handing out a record keeps everything aligned. */
  lemma RecordAligned(w: World, recs: seq<seq<Byte>>, v: World)
    requires Inv(w, recs) && Aligned(w, recs) && |w.returned| < |recs|
    requires Inv(v, recs) && v.call.Between? && v.call.reply.Record? && |v.returned| == |w.returned| + 1
    requires v.hole == w.hole && v.base == w.base && v.released == w.released
    ensures Aligned(v, recs)
  {
    RecordAt(recs, |w.returned|);
    assert GoodRecord(recs[|w.returned|]);
    assert v.released <= Wanted(w, recs) < Wanted(v, recs);
    hide GoodRecord, GoodRecords, Flat, Holds, Lap;
    RecordOffset(v, Wanted(v, recs), WantedLen(v, recs));
    hide Inv, BooksInv;
  }

  lemma TakeAligned(w: World, recs: seq<seq<Byte>>, seen: nat)
    requires Inv(w, recs) && Aligned(w, recs) && w.call.Taking? && Enabled(w, recs, Look(seen))
    ensures Aligned(LookedAt(w, seen), recs)
  {
    NextInv(w, recs, Look(seen));
    TakeLookIs(w, recs, seen);
    assert |w.returned| < |recs| && w.call.a.rx.offset == w.rx.offset && !w.call.a.rx.first && !w.rx.first;
    hide LookedAt, Inv, View;
    var v := LookedAt(w, seen);
    if v.returned == w.returned {
      assert Begin(v.rx).offset == Begin(w.rx).offset;
    } else {
      RecordAligned(w, recs, v);
    }
  }

  lemma HeaderAligned(w: World, recs: seq<seq<Byte>>)
    requires Inv(w, recs) && Aligned(w, recs) && w.call.Seen?
    ensures Aligned(HeaderRead(w, Wanted(w, recs)), recs)
  {
    NextInv(w, recs, Header);
    HeaderIs(w, recs);
    FreeAligned(w, recs, w.call.a.rx, w.call.a.next);
    hide HeaderRead, Inv, View, MustAdvance, LimitFor, Norm, BooksInv;
    var v := HeaderRead(w, Wanted(w, recs));
    if v.call.Between? && v.call.reply.Record? {
      RecordAligned(w, recs, v);
    }
  }

  lemma NextAligned(w: World, recs: seq<seq<Byte>>, step: Step)
    requires Inv(w, recs) && Aligned(w, recs) && Enabled(w, recs, step)
    ensures Aligned(Next(w, recs, step), recs)
  {
    hide Inv, Asked, LookedAt, HeaderRead;
    match step
    case Capture(b) =>
    case Ask => AskAligned(w, recs);
    case Header => HeaderAligned(w, recs);
    case Look(seen) =>
      if w.call.Asking? {
        LookAligned(w, recs, seen);
      } else {
        TakeAligned(w, recs, seen);
      }
  }

  /** Over any run with the whole hole mapped twice and everything a multiple of 8, no call looks for a
      header outside the mapping. */
  lemma {:induction false} AlignedRunStaysMapped(w: World, recs: seq<seq<Byte>>, steps: seq<Step>)
    requires Inv(w, recs) && Aligned(w, recs) && Runs(w, recs, steps)
    ensures Aligned(Run(w, recs, steps), recs) && !SaysUnmapped(Run(w, recs, steps))
    decreases |steps|
  {
    if steps == [] {
    } else {
      hide Inv, Aligned, Next, Enabled;
      NextInv(w, recs, steps[0]);
      NextAligned(w, recs, steps[0]);
      AlignedRunStaysMapped(Next(w, recs, steps[0]), recs, steps[1..]);
    }
  }
}
