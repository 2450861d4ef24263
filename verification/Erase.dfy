/** Erasing sectors with read-back and retry. */
module Erase {
  import opened Wrappers
  import opened Flash

  predicate Good(s: seq<Byte>) {
    forall k :: 0 <= k < |s| ==> s[k] == ERASED
  }

  predicate BadAtStart(s: seq<Byte>) {
    |s| > 0 && s[0] != ERASED
  }

  /** The failure counter after an attempt: every good byte that is read back resets it. */
  function Counted(failures: nat, s: seq<Byte>): nat {
    if Good(s) then 0 else if BadAtStart(s) then failures + 1 else 1
  }

  datatype End = Finished | GaveUp | Waiting

  /** How erasing `left` sectors ends when the attempts leave `e`. */
  function Erasing(e: seq<seq<Byte>>, left: nat, failures: nat): End
    decreases |e|
  {
    if left == 0 then Finished
    else if e == [] then Waiting
    else if Good(e[0]) then Erasing(e[1..], left - 1, 0)
    else if Counted(failures, e[0]) >= 4 then GaveUp
    else Erasing(e[1..], left, Counted(failures, e[0]))
  }

  // ---- When the driver gives up ----

  /** How many of the attempts were good. */
  function Goods(e: seq<seq<Byte>>): nat {
    if e == [] then 0 else (if Good(e[0]) then 1 else 0) + Goods(e[1..])
  }

  /** Attempt `j` is the third in a row that fails in its first byte, after one that failed anywhere. */
  predicate FourthFailure(e: seq<seq<Byte>>, j: nat) {
    3 <= j < |e| && !Good(e[j - 3]) && BadAtStart(e[j - 2]) && BadAtStart(e[j - 1]) && BadAtStart(e[j])
  }

  /** The same when `failures` attempts have been counted before. */
  predicate Trips(e: seq<seq<Byte>>, failures: nat, j: nat) {
    || FourthFailure(e, j)
    || (j < |e| && j + 1 + failures >= 4 && forall i | 0 <= i <= j :: BadAtStart(e[i]))
  }

  ghost predicate GivesUp(e: seq<seq<Byte>>, left: nat, failures: nat) {
    exists j :: 0 <= j < |e| && Trips(e, failures, j) && Goods(e[..j]) < left
  }

  lemma TripsLater(e: seq<seq<Byte>>, failures: nat, j: nat)
    requires |e| > 0 && 0 < j < |e| && failures <= 3 && Counted(failures, e[0]) <= 3
    ensures Trips(e, failures, j) <==> Trips(e[1..], Counted(failures, e[0]), j - 1)
  {
    var t, f := e[1..], Counted(failures, e[0]);
    assert forall i | 0 <= i < |t| :: t[i] == e[i + 1];
    if Trips(e, failures, j) {
      if FourthFailure(e, j) {
        if j > 3 {
          assert FourthFailure(t, j - 1);
        } else {
          assert forall i | 0 <= i <= j - 1 :: BadAtStart(t[i]);
        }
      } else {
        assert BadAtStart(e[0]);
        assert forall i | 0 <= i <= j - 1 :: BadAtStart(t[i]) by {
          forall i | 0 <= i <= j - 1
            ensures BadAtStart(t[i])
          {
            assert BadAtStart(e[i + 1]);
          }
        }
      }
    }
    if Trips(t, f, j - 1) {
      if FourthFailure(t, j - 1) {
        assert FourthFailure(e, j);
      } else {
        assert BadAtStart(t[j - 1]);
        assert j - 1 >= 1 ==> BadAtStart(t[j - 2]);
        assert j - 1 >= 2 ==> BadAtStart(t[j - 3]);
        if j >= 3 {
        } else {
          assert f >= 2;
          forall i | 0 <= i <= j
            ensures BadAtStart(e[i])
          {
            if i > 0 {
              assert BadAtStart(t[i - 1]);
            }
          }
        }
      }
    }
  }

  lemma GoodsLater(e: seq<seq<Byte>>, j: nat)
    requires 0 < j <= |e|
    ensures Goods(e[..j]) == (if Good(e[0]) then 1 else 0) + Goods(e[1..][..j - 1])
  {
    assert e[..j][1..] == e[1..][..j - 1];
  }

  /** The driver gives up exactly when some attempt trips before enough others were good. */
  lemma {:induction false} GivesUpExactly(e: seq<seq<Byte>>, left: nat, failures: nat)
    requires failures <= 3
    ensures Erasing(e, left, failures) == GaveUp <==> GivesUp(e, left, failures)
    decreases |e|
  {
    if left > 0 && e != [] {
      var f := Counted(failures, e[0]);
      if f >= 4 {
        assert Trips(e, failures, 0) && Goods(e[..0]) < left;
      } else {
        var rest := left - if Good(e[0]) then 1 else 0;
        GivesUpExactly(e[1..], rest, f);
        GivesUpLater(e, left, failures);
      }
    }
  }

  lemma GivesUpLater(e: seq<seq<Byte>>, left: nat, failures: nat)
    requires left > 0 && e != [] && failures <= 3 && Counted(failures, e[0]) <= 3
    ensures GivesUp(e, left, failures)
            <==> GivesUp(e[1..], left - (if Good(e[0]) then 1 else 0), Counted(failures, e[0]))
  {
    var rest := left - if Good(e[0]) then 1 else 0;
    var f := Counted(failures, e[0]);
    assert !Trips(e, failures, 0);
    if GivesUp(e, left, failures) {
      var j :| 0 <= j < |e| && Trips(e, failures, j) && Goods(e[..j]) < left;
      TripsLater(e, failures, j);
      GoodsLater(e, j);
      assert 0 <= j - 1 < |e[1..]| && Trips(e[1..], f, j - 1) && Goods(e[1..][..j - 1]) < rest;
    }
    if GivesUp(e[1..], rest, f) {
      var j :| 0 <= j < |e[1..]| && Trips(e[1..], f, j) && Goods(e[1..][..j]) < rest;
      TripsLater(e, failures, j + 1);
      GoodsLater(e, j + 1);
      assert 0 <= j + 1 < |e| && Trips(e, failures, j + 1) && Goods(e[..j + 1]) < left;
    }
  }

  /** It is still waiting when the attempts run out exactly when it has not given up and too few
      were good. */
  lemma {:induction false} WaitsExactly(e: seq<seq<Byte>>, left: nat, failures: nat)
    requires failures <= 3
    ensures Erasing(e, left, failures) == Waiting <==> Goods(e) < left && !GivesUp(e, left, failures)
    decreases |e|
  {
    if left > 0 && e != [] {
      var f := Counted(failures, e[0]);
      if f >= 4 {
        assert Trips(e, failures, 0) && Goods(e[..0]) < left;
      } else {
        WaitsExactly(e[1..], left - if Good(e[0]) then 1 else 0, f);
        GivesUpLater(e, left, failures);
      }
    }
  }

  /** The limit of four failures bounds nothing: while each attempt leaves the first byte good and
      another byte bad, the driver goes on, however many attempts there are. */
  lemma LimitMissed(e: seq<seq<Byte>>, left: nat)
    requires left > 0 && forall j | 0 <= j < |e| :: !Good(e[j]) && !BadAtStart(e[j])
    ensures Erasing(e, left, 0) == Waiting
  {
    WaitsExactly(e, left, 0);
    NoGoods(e);
  }

  lemma {:induction false} NoGoods(e: seq<seq<Byte>>)
    requires forall j | 0 <= j < |e| :: !Good(e[j])
    ensures Goods(e) == 0
  {
    if e != [] {
      NoGoods(e[1..]);
    }
  }

  // ---- The driver ----

  /** Where the loop over sectors ends. */
  function Stop(addr: nat, eaddr: nat, sector: nat): (r: nat)
    requires sector > 0
    ensures r >= addr && r >= eaddr && (addr < eaddr ==> r < eaddr + sector)
    decreases eaddr - addr
  {
    if addr >= eaddr then addr else Stop(addr + sector, eaddr, sector)
  }

  function Sectors(addr: nat, eaddr: nat, sector: nat): nat
    requires sector > 0
    decreases eaddr - addr
  {
    if addr >= eaddr then 0 else 1 + Sectors(addr + sector, eaddr, sector)
  }

  /** The loop goes over as many sectors as lie from `addr` to where it stops. */
  lemma {:induction false} SectorsFill(addr: nat, eaddr: nat, sector: nat)
    requires sector > 0 && addr <= eaddr
    ensures Stop(addr, eaddr, sector) == addr + Sectors(addr, eaddr, sector) * sector
    ensures eaddr <= Stop(addr, eaddr, sector) < eaddr + sector
    decreases eaddr - addr
  {
    if addr < eaddr {
      if addr + sector < eaddr {
        SectorsFill(addr + sector, eaddr, sector);
      }
      var rest := Sectors(addr + sector, eaddr, sector);
      assert (1 + rest) * sector == sector + rest * sector;
    }
  }

  ghost predicate ErasesFit(c: Chip, sector: nat) {
    sector > 0 && forall j | 0 <= j < |c.erases| :: |c.erases[j]| == sector
  }

  /** Cells outside [from, to) are as they were. */
  ghost predicate Outside(now: seq<Byte>, was: seq<Byte>, from: nat, to: nat) {
    |now| == |was| && forall i | 0 <= i < |now| && !(from <= i < to) :: now[i] == was[i]
  }

  ghost predicate ErasedIn(cells: seq<Byte>, from: nat, to: nat) {
    to <= |cells| && forall i | from <= i < to :: cells[i] == 0xff
  }

  /** What an attempt leaves, when the sectors before it are erased. */
  lemma Attempt(orig: seq<Byte>, was: seq<Byte>, from: nat, at: nat, data: seq<Byte>, stop: nat)
    requires from <= at && at + |data| <= stop && at + |data| <= |was|
    requires Outside(was, orig, from, stop) && ErasedIn(was, from, at)
    ensures var now := Replaced(was, at, data);
            && now[at..at + |data|] == data
            && Outside(now, orig, from, stop)
            && ErasedIn(now, from, at)
            && (Good(data) ==> ErasedIn(now, from, at + |data|))
  {
  }

  /** Reading a sector back: the loop stops at the first bad byte, and each good byte clears the
      counter. */
  method ReadBack(rp: Rom, addr: nat, failures: nat) returns (ok: bool, count: nat)
    requires rp.chip.mode.ReadArray? && addr + rp.sector <= |rp.chip.cells|
    ensures ok == Good(rp.chip.cells[addr..addr + rp.sector])
    ensures count == if rp.sector == 0 then failures else Counted(failures, rp.chip.cells[addr..addr + rp.sector])
  {
    ghost var s := rp.chip.cells[addr..addr + rp.sector];
    count := failures;
    for i := addr to addr + rp.sector
      invariant forall k | 0 <= k < i - addr :: s[k] == ERASED
      invariant count == if i == addr then failures else 0
    {
      var v := rp.RomRead(i);
      assert v == s[i - addr];
      if v != ERASED {
        return false, count + 1;
      }
      count := 0;
    }
    ok := true;
  }

  /** cfi_erase; None when it waits for ever. Every sector that it has passed is erased, whatever the
      attempts before left there. On a retry the source steps `addr` back by one sector and lets the
      loop step it forward again. */
  method Erase(rp: Rom, saddr: nat, eaddr: nat) returns (r: Option<int>)
    requires Idle(rp.chip) && ErasesFit(rp.chip, rp.sector) && Stop(saddr, eaddr, rp.sector) <= |rp.chip.cells|
    modifies rp
    ensures r == match Erasing(old(rp.chip).erases, Sectors(saddr, eaddr, rp.sector), 0)
                 case Finished => Some(0)
                 case GaveUp => Some(-1)
                 case Waiting => None
    ensures r == Some(0) ==> ErasedIn(rp.chip.cells, saddr, Stop(saddr, eaddr, rp.sector))
    ensures Outside(rp.chip.cells, old(rp.chip).cells, saddr, Stop(saddr, eaddr, rp.sector))
    ensures r != None ==> rp.chip.mode.ReadArray? && ErasesFit(rp.chip, rp.sector)
  {
    ghost var c, n, stop := rp.chip, Sectors(saddr, eaddr, rp.sector), Stop(saddr, eaddr, rp.sector);
    assert ErasedIn(c.cells, saddr, saddr) && Outside(c.cells, c.cells, saddr, stop);
    hide Good, Replaced, Outside, ErasedIn;
    var addr, failures := saddr, 0;
    while addr < eaddr
      invariant saddr <= addr <= stop && stop == Stop(addr, eaddr, rp.sector) && failures <= 3
      invariant Idle(rp.chip) && ErasesFit(rp.chip, rp.sector)
      invariant ErasedIn(rp.chip.cells, saddr, addr)
      invariant Outside(rp.chip.cells, c.cells, saddr, stop)
      invariant Erasing(rp.chip.erases, Sectors(addr, eaddr, rp.sector), failures) == Erasing(c.erases, n, 0)
      decreases |rp.chip.erases|, eaddr - addr
    {
      ghost var was := rp.chip;
      rp.RomWrite(0, CLEAR_STATUS);
      rp.RomWrite(addr, BLOCK_ERASE);
      rp.RomWrite(addr, RESUME);
      var ready := rp.Ready();
      if !ready {
        return None;
      }
      Attempt(c.cells, was.cells, saddr, addr, was.erases[0], stop);
      rp.RomWrite(0, READ_ARRAY);
      var ok, count := ReadBack(rp, addr, failures);
      failures := count;
      if ok {
        addr := addr + rp.sector;
      } else if failures >= 4 {
        return Some(-1);
      }
    }
    rp.RomWrite(0, READ_ARRAY);
    return Some(0);
  }
}
