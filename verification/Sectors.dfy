/** Addresses and sector numbers on a chip whose regions have sectors of different sizes. */
module Sectors {
  import opened Wrappers
  import opened Ring

  /** `count` sectors of `size` bytes each. */
  datatype Region = Region(size: nat, count: nat)

  predicate Proper(rs: seq<Region>) {
    forall i | 0 <= i < |rs| :: rs[i].size > 0 && rs[i].count > 0
  }

  function Area(r: Region): nat {
    r.size * r.count
  }

  function Bytes(rs: seq<Region>): nat {
    if rs == [] then 0 else Area(rs[0]) + Bytes(rs[1..])
  }

  function Count(rs: seq<Region>): nat {
    if rs == [] then 0 else rs[0].count + Count(rs[1..])
  }

  function Plus(r: Option<nat>, n: nat): Option<nat> {
    match r
    case None => None
    case Some(v) => Some(v + n)
  }

  /** The sector that holds an address, as the first loop of sector_range_calc looks for it. */
  function Holding(rs: seq<Region>, a: nat): Option<nat>
    requires Proper(rs)
    decreases |rs|
  {
    if rs == [] then None
    else if a < Area(rs[0]) then Some(a / rs[0].size)
    else Plus(Holding(rs[1..], a - Area(rs[0])), rs[0].count)
  }

  /** The sector at which a range that ends at an address stops, by the second loop. */
  function Ending(rs: seq<Region>, a: nat): Option<nat>
    requires Proper(rs)
    decreases |rs|
  {
    if rs == [] then None
    else if a <= Area(rs[0]) then Some(a / rs[0].size)
    else Plus(Ending(rs[1..], a - Area(rs[0])), rs[0].count)
  }

  /** The first address of a sector, as sector_to_address finds it. */
  function First(rs: seq<Region>, s: nat): Option<nat>
    decreases |rs|
  {
    if rs == [] then None
    else if s <= rs[0].count then Some(s * rs[0].size)
    else Plus(First(rs[1..], s - rs[0].count), Area(rs[0]))
  }

  /** The first address behind a sector, as sector_to_end_address finds it. */
  function Behind(rs: seq<Region>, s: nat): Option<nat>
    decreases |rs|
  {
    if rs == [] then None
    else if s < rs[0].count then Some(s * rs[0].size + rs[0].size)
    else Plus(Behind(rs[1..], s - rs[0].count), Area(rs[0]))
  }

  // ---- Arithmetic ----

  lemma Quotient(a: nat, n: nat)
    requires n > 0
    ensures a / n * n <= a < a / n * n + n
  {
  }

  lemma QuotientBelow(a: nat, n: nat, k: nat)
    requires n > 0 && a < n * k
    ensures a / n < k
  {
    Quotient(a, n);
  }

  /** A multiple of n is at most `a` when the multiplier is at most the quotient. */
  lemma QuotientOrder(a: nat, n: nat, s: nat)
    requires n > 0
    ensures s * n <= a <==> s <= a / n
  {
    Quotient(a, n);
    if s <= a / n {
      LessOrEqualTimes(s, a / n, n);
    } else {
      LessOrEqualTimes(a / n + 1, s, n);
      NextMultiple(a / n, n);
    }
  }

  lemma LessOrEqualTimes(s: nat, t: nat, n: nat)
    requires s <= t
    ensures s * n <= t * n
  {
  }

  lemma NextMultiple(s: nat, n: nat)
    ensures (s + 1) * n == s * n + n
  {
  }

  // ---- The tests agree ----

  /** Every address on the chip is in a sector, and in no other place. */
  lemma {:induction false} HoldingInRange(rs: seq<Region>, a: nat)
    requires Proper(rs)
    ensures Holding(rs, a).Some? <==> a < Bytes(rs)
    ensures Holding(rs, a).Some? ==> Holding(rs, a).value < Count(rs)
    decreases |rs|
  {
    hide Area;
    if rs != [] {
      if a < Area(rs[0]) {
        AreaIs(rs[0]);
        QuotientBelow(a, rs[0].size, rs[0].count);
      } else {
        HoldingInRange(rs[1..], a - Area(rs[0]));
      }
    }
  }

  lemma AreaIs(r: Region)
    ensures Area(r) == r.size * r.count == r.count * r.size
  {
  }

  /** The ends of the sectors are the starts of the next ones, also from one region to the next. */
  lemma {:induction false} BehindIsNext(rs: seq<Region>, s: nat)
    requires Proper(rs)
    ensures Behind(rs, s) == if s < Count(rs) then First(rs, s + 1) else None
    ensures First(rs, s).Some? <==> s <= Count(rs) && rs != []
    decreases |rs|
  {
    hide Area;
    if rs != [] {
      if s < rs[0].count {
        NextMultiple(s, rs[0].size);
      } else {
        BehindIsNext(rs[1..], s - rs[0].count);
        AreaIs(rs[0]);
        if s == rs[0].count && rs[1..] != [] {
          FirstOfRegion(rs[1..]);
        }
      }
    }
  }

  lemma FirstOfRegion(rs: seq<Region>)
    requires Proper(rs) && rs != []
    ensures First(rs, 0) == Some(0) && First(rs, 1) == Some(rs[0].size)
  {
  }

  /** An address lies between the start and the end of the sector computed for it. */
  lemma {:induction false} AddressInSector(rs: seq<Region>, a: nat)
    requires Proper(rs) && a < Bytes(rs)
    ensures Holding(rs, a).Some?
    ensures var s := Holding(rs, a).value;
            && First(rs, s).Some? && Behind(rs, s).Some?
            && First(rs, s).value <= a < Behind(rs, s).value
    decreases |rs|
  {
    hide Area;
    var r := rs[0];
    if a < Area(r) {
      AreaIs(r);
      QuotientBelow(a, r.size, r.count);
      Quotient(a, r.size);
    } else {
      AddressInSector(rs[1..], a - Area(r));
      var s := Holding(rs[1..], a - Area(r)).value;
      AreaIs(r);
      if s == 0 {
        FirstOfRegion(rs[1..]);
      }
    }
  }

  /** Sectors and addresses are in the same order. */
  lemma {:induction false} HoldingOrder(rs: seq<Region>, a: nat, s: nat)
    requires Proper(rs) && a < Bytes(rs) && s <= Count(rs)
    ensures Holding(rs, a).Some? && First(rs, s).Some?
    ensures s <= Holding(rs, a).value <==> First(rs, s).value <= a
    decreases |rs|
  {
    hide Area;
    var r := rs[0];
    AreaIs(r);
    HoldingInRange(rs, a);
    BehindIsNext(rs, s);
    if a < Area(r) && s <= r.count {
      QuotientOrder(a, r.size, s);
    } else if a < Area(r) {
      QuotientBelow(a, r.size, r.count);
    } else if s <= r.count {
      LessOrEqualTimes(s, r.count, r.size);
    } else {
      HoldingOrder(rs[1..], a - Area(r), s - r.count);
    }
  }

  lemma {:induction false} FirstPositive(rs: seq<Region>, s: nat)
    requires Proper(rs) && 0 < s <= Count(rs)
    ensures First(rs, s).Some? && First(rs, s).value > 0
    decreases |rs|
  {
    hide Area;
    BehindIsNext(rs, s);
    AreaIs(rs[0]);
    if s <= rs[0].count {
      LessOrEqualTimes(1, s, rs[0].size);
    } else {
      FirstPositive(rs[1..], s - rs[0].count);
    }
  }

  lemma {:induction false} EndingOrder(rs: seq<Region>, e: nat, s: nat)
    requires Proper(rs) && rs != [] && e <= Bytes(rs) && s <= Count(rs)
    ensures Ending(rs, e).Some? && First(rs, s).Some? && Ending(rs, e).value <= Count(rs)
    ensures s <= Ending(rs, e).value <==> First(rs, s).value <= e
    decreases |rs|
  {
    hide Area;
    var r := rs[0];
    AreaIs(r);
    BehindIsNext(rs, s);
    if e <= Area(r) {
      QuotientOrder(e, r.size, r.count + 1);
      NextMultiple(r.count, r.size);
      if s <= r.count {
        QuotientOrder(e, r.size, s);
      } else {
        FirstPositive(rs[1..], s - r.count);
      }
    } else {
      EndingOrder(rs[1..], e - Area(r), if s <= r.count then 0 else s - r.count);
      if s <= r.count {
        LessOrEqualTimes(s, r.count, r.size);
      }
    }
  }

  // ---- Ranges ----

  ghost predicate Boundary(rs: seq<Region>, e: nat) {
    exists s :: 0 <= s <= Count(rs) && First(rs, s) == Some(e)
  }

  lemma BoundaryIsEnding(rs: seq<Region>, e: nat)
    requires Proper(rs) && rs != [] && e <= Bytes(rs)
    ensures Ending(rs, e).Some?
    ensures First(rs, Ending(rs, e).value) == Some(e) <==> Boundary(rs, e)
  {
    hide Ending, First, Bytes;
    EndingOrder(rs, e, 0);
    EndingOrder(rs, e, Ending(rs, e).value);
    if Boundary(rs, e) {
      var s :| 0 <= s <= Count(rs) && First(rs, s) == Some(e);
      EndingOrder(rs, e, s);
      FirstMonotone(rs, s, Ending(rs, e).value);
    }
  }

  /** The sector of `a` is one from `start` to end-1 exactly when `a` lies between their addresses. */
  predicate InStretch(rs: seq<Region>, start: nat, end: nat, a: nat)
    requires Proper(rs)
  {
    && Holding(rs, a).Some? && First(rs, start).Some? && First(rs, end).Some?
    && (start <= Holding(rs, a).value < end <==> First(rs, start).value <= a < First(rs, end).value)
  }

  /** The sectors from that of `saddr` up to, and without, the end make up one stretch of addresses,
      which begins at or before `saddr` and reaches `eaddr` exactly when that is a sector boundary. */
  lemma RangeIsStretch(rs: seq<Region>, saddr: nat, eaddr: nat)
    requires Proper(rs) && saddr < Bytes(rs) && eaddr <= Bytes(rs)
    ensures Holding(rs, saddr).Some? && Ending(rs, eaddr).Some?
    ensures var start, end := Holding(rs, saddr).value, Ending(rs, eaddr).value;
            && First(rs, start).Some? && First(rs, end).Some?
            && First(rs, start).value <= saddr && First(rs, end).value <= eaddr
            && (First(rs, end) == Some(eaddr) <==> Boundary(rs, eaddr))
            && forall a | 0 <= a < Bytes(rs) ::
                 InStretch(rs, start, end, a)
  {
    hide Holding, Ending, First, Bytes;
    HoldingInRange(rs, saddr);
    EndingOrder(rs, eaddr, 0);
    var start, end := Holding(rs, saddr).value, Ending(rs, eaddr).value;
    EndingOrder(rs, eaddr, end);
    HoldingOrder(rs, saddr, start);
    forall a | 0 <= a < Bytes(rs)
      ensures InStretch(rs, start, end, a)
    {
      HoldingOrder(rs, a, start);
      HoldingOrder(rs, a, end);
    }
    BoundaryIsEnding(rs, eaddr);
  }

  lemma FirstMonotone(rs: seq<Region>, s: nat, t: nat)
    requires Proper(rs) && rs != [] && s <= t <= Count(rs)
    ensures First(rs, s).Some? && First(rs, t).Some? && First(rs, s).value <= First(rs, t).value <= Bytes(rs)
  {
    BehindIsNext(rs, s);
    BehindIsNext(rs, t);
    FirstBelow(rs, t);
    EndingOrder(rs, First(rs, t).value, t);
    EndingOrder(rs, First(rs, t).value, s);
  }

  lemma {:induction false} FirstBelow(rs: seq<Region>, s: nat)
    requires Proper(rs) && rs != [] && s <= Count(rs)
    ensures First(rs, s).Some? && First(rs, s).value <= Bytes(rs)
    decreases |rs|
  {
    hide Area;
    BehindIsNext(rs, s);
    AreaIs(rs[0]);
    if s <= rs[0].count {
      LessOrEqualTimes(s, rs[0].count, rs[0].size);
    } else {
      FirstBelow(rs[1..], s - rs[0].count);
    }
  }

  /** Which sectors the erase and program loops visit for a range. */
  predicate Visited(start: nat, end: nat, s: nat) {
    if start == end then s == start else start <= s < end
  }

  ghost predicate Covers(rs: seq<Region>, saddr: nat, eaddr: nat, start: nat, end: nat)
    requires Proper(rs)
  {
    forall a | saddr <= a < eaddr :: Holding(rs, a).Some? && Visited(start, end, Holding(rs, a).value)
  }

  /** The visited sectors cover the range exactly when it ends at a sector boundary or in the sector
      where it begins: otherwise the last, partial sector is left out. */
  lemma CoveredExactly(rs: seq<Region>, saddr: nat, eaddr: nat)
    requires Proper(rs) && saddr < eaddr <= Bytes(rs)
    ensures Holding(rs, saddr).Some? && Ending(rs, eaddr).Some?
    ensures var start, end := Holding(rs, saddr).value, Ending(rs, eaddr).value;
            Covers(rs, saddr, eaddr, start, end) <==> Boundary(rs, eaddr) || start == end
  {
    hide Holding, Ending, First, Boundary, Bytes;
    RangeIsStretch(rs, saddr, eaddr);
    var start, end := Holding(rs, saddr).value, Ending(rs, eaddr).value;
    if start == end {
      WithinOne(rs, saddr, eaddr);
    } else {
      HoldingInRange(rs, saddr);
      EndingOrder(rs, eaddr, start);
      assert start < end;
      if Covers(rs, saddr, eaddr, start, end) {
        assert InStretch(rs, start, end, eaddr - 1);
        assert Holding(rs, eaddr - 1).Some? && Visited(start, end, Holding(rs, eaddr - 1).value);
      }
      if Boundary(rs, eaddr) {
        forall a | saddr <= a < eaddr
          ensures Holding(rs, a).Some? && Visited(start, end, Holding(rs, a).value)
        {
          assert InStretch(rs, start, end, a);
        }
      }
    }
  }

  lemma WithinOne(rs: seq<Region>, saddr: nat, eaddr: nat)
    requires Proper(rs) && saddr < eaddr <= Bytes(rs)
    requires Holding(rs, saddr).Some? && Holding(rs, saddr) == Ending(rs, eaddr)
    ensures Covers(rs, saddr, eaddr, Holding(rs, saddr).value, Holding(rs, saddr).value)
  {
    hide Holding, Ending, First, Bytes;
    var start := Holding(rs, saddr).value;
    HoldingInRange(rs, saddr);
    EndingOrder(rs, eaddr, start + 1);
    HoldingOrder(rs, saddr, start);
    forall a | saddr <= a < eaddr
      ensures Holding(rs, a).Some? && Holding(rs, a).value == start
    {
      HoldingOrder(rs, a, start);
      HoldingOrder(rs, a, start + 1);
    }
  }

  // ---- The region table ----

  /** A region as the chip describes it: one sector less than it has, and the size in units of 256. */
  datatype Raw = Raw(count: nat, size: nat)

  function Described(raw: seq<Raw>): (rs: seq<Region>)
    ensures |rs| == |raw|
  {
    seq(|raw|, i requires 0 <= i < |raw| => Region(256 * raw[i].size, raw[i].count + 1))
  }

  lemma {:induction false} BytesSplit(rs: seq<Region>, i: nat)
    requires i < |rs|
    ensures Bytes(rs[..i + 1]) == Bytes(rs[..i]) + Area(rs[i])
    decreases i
  {
    hide Area;
    if i == 0 {
      assert rs[..1] == [rs[0]] && rs[..0] == [];
      assert Bytes([rs[0]]) == Area(rs[0]) + Bytes([]);
    } else {
      assert rs[..i + 1][1..] == rs[1..][..i] && rs[..i][1..] == rs[1..][..i - 1];
      BytesSplit(rs[1..], i - 1);
    }
  }

  lemma HoldingStep(rs: seq<Region>, i: nat, a: nat)
    requires Proper(rs) && i < |rs|
    ensures Holding(rs[i..], a) == if a < rs[i].size * rs[i].count then Some(a / rs[i].size)
                                   else Plus(Holding(rs[i + 1..], a - Area(rs[i])), rs[i].count)
    ensures Ending(rs[i..], a) == if a <= rs[i].size * rs[i].count then Some(a / rs[i].size)
                                  else Plus(Ending(rs[i + 1..], a - Area(rs[i])), rs[i].count)
    ensures Area(rs[i]) == rs[i].size * rs[i].count
  {
    assert rs[i..][1..] == rs[i + 1..];
  }

  lemma HoldingNowhere(a: nat)
    ensures Holding([], a) == None && Ending([], a) == None
  {
  }

  lemma FirstStep(rs: seq<Region>, i: nat, s: nat)
    requires i < |rs|
    ensures First(rs[i..], s) == if s <= rs[i].count then Some(s * rs[i].size)
                                 else Plus(First(rs[i + 1..], s - rs[i].count), Area(rs[i]))
    ensures Behind(rs[i..], s) == if s < rs[i].count then Some(s * rs[i].size + rs[i].size)
                                  else Plus(Behind(rs[i + 1..], s - rs[i].count), Area(rs[i]))
  {
    assert rs[i..][1..] == rs[i + 1..];
  }

  lemma FirstNowhere(s: nat)
    ensures First([], s) == None && Behind([], s) == None
  {
  }

  /** Adding in 32 bits what was added in 32 bits before. */
  lemma WrapsOnce(a: nat, b: nat)
    ensures I32(I32(a) + b) == I32(a + b)
  {
  }

  /** When the whole fits an int, so do the offsets. */
  lemma OffsetsFit(rs: seq<Region>)
    ensures Bytes(rs) < TWO31 ==> forall i | 0 <= i < |rs| :: I32(Bytes(rs[..i])) == Bytes(rs[..i])
  {
    forall i | 0 <= i < |rs|
      ensures Bytes(rs[..i]) <= Bytes(rs)
    {
      BytesPrefix(rs, i);
    }
  }

  lemma {:induction false} BytesPrefix(rs: seq<Region>, i: nat)
    requires i <= |rs|
    ensures Bytes(rs[..i]) <= Bytes(rs)
    decreases |rs| - i
  {
    hide Area;
    if i == |rs| {
      assert rs[..i] == rs;
    } else {
      BytesSplit(rs, i);
      BytesPrefix(rs, i + 1);
    }
  }

  /** rom_block_description_t. */
  class Blocks {
    var sizeRegion: seq<nat>
    var sectors: seq<nat>
    var regionOffset: seq<int>

    constructor ()
      ensures Valid() && Regions() == []
    {
      sizeRegion, sectors, regionOffset := [], [], [];
    }

    ghost function Regions(): (rs: seq<Region>)
      reads this
      requires |sizeRegion| == |sectors|
      ensures |rs| == |sectors|
    {
      seq(|sectors|, i requires 0 <= i < |sectors| && |sizeRegion| == |sectors| reads this =>
        Region(sizeRegion[i], sectors[i]))
    }

    /** Offsets are the sizes of all regions before; everything fits an int. */
    ghost predicate Valid()
      reads this
    {
      && |sizeRegion| == |sectors| == |regionOffset|
      && Proper(Regions()) && Bytes(Regions()) < TWO31
      && forall i | 0 <= i < |regionOffset| :: regionOffset[i] == Bytes(Regions()[..i])
    }

    /** cfi_read_blocks: counts and sizes as described, offsets the sizes of all regions before as an int
        holds them. Nothing is tested; the table serves the walks below if no region is empty and the
        chip's size is less than 2^31. The arrays have ten places. */
    method ReadBlocks(raw: seq<Raw>)
      requires |raw| <= 10
      modifies this
      ensures |sizeRegion| == |sectors| == |regionOffset| == |raw| && Regions() == Described(raw)
      ensures forall i | 0 <= i < |raw| :: sectors[i] == raw[i].count + 1 && sizeRegion[i] == 256 * raw[i].size
      ensures forall i | 0 <= i < |raw| :: regionOffset[i] == I32(Bytes(Described(raw)[..i]))
      ensures Valid() <==> Proper(Described(raw)) && Bytes(Described(raw)) < TWO31
    {
      sizeRegion, sectors, regionOffset := [], [], [];
      ghost var rs := Described(raw);
      for loop := 0 to |raw|
        invariant |sizeRegion| == |sectors| == |regionOffset| == loop
        invariant forall i | 0 <= i < loop :: sizeRegion[i] == rs[i].size && sectors[i] == rs[i].count
        invariant forall i | 0 <= i < loop :: regionOffset[i] == I32(Bytes(rs[..i]))
      {
        sectors := sectors + [raw[loop].count + 1];
        sizeRegion := sizeRegion + [256 * raw[loop].size];
        if loop > 0 {
          BytesSplit(rs, loop - 1);
          WrapsOnce(Bytes(rs[..loop - 1]), Area(rs[loop - 1]));
          regionOffset := regionOffset + [I32(regionOffset[loop - 1] + sizeRegion[loop - 1] * sectors[loop - 1])];
        } else {
          assert rs[..0] == [];
          regionOffset := regionOffset + [0];
        }
      }
      assert Regions() == rs;
      OffsetsFit(rs);
    }

    /** The first half of sector_range_calc; None when it panics. */
    method StartSector(saddr: nat) returns (r: Option<nat>)
      requires Valid()
      ensures r == Holding(Regions(), saddr)
    {
      hide Area, Holding;
      ghost var rs := Regions();
      var start: nat, region := 0, -1;
      assert rs[0..] == rs;
      for i := 0 to |sectors|
        invariant region == -1 && Bytes(rs[..i]) <= saddr
        invariant Holding(rs, saddr) == Plus(Holding(rs[i..], saddr - Bytes(rs[..i])), start)
      {
        HoldingStep(rs, i, saddr - Bytes(rs[..i]));
        if saddr < regionOffset[i] + sizeRegion[i] * sectors[i] {
          region := i;
          break;
        }
        BytesSplit(rs, i);
        start := start + sectors[i];
      }
      if region < 0 {
        HoldingNowhere(saddr - Bytes(rs[..|rs|]));
        return None;
      }
      return Some(start + (saddr - regionOffset[region]) / sizeRegion[region]);
    }

    /** Its second half. */
    method EndSector(eaddr: nat) returns (r: Option<nat>)
      requires Valid()
      ensures r == Ending(Regions(), eaddr)
    {
      hide Area, Ending;
      ghost var rs := Regions();
      var end: nat, region := 0, -1;
      assert rs[0..] == rs;
      for i := 0 to |sectors|
        invariant region == -1 && Bytes(rs[..i]) <= eaddr
        invariant Ending(rs, eaddr) == Plus(Ending(rs[i..], eaddr - Bytes(rs[..i])), end)
      {
        HoldingStep(rs, i, eaddr - Bytes(rs[..i]));
        if eaddr <= regionOffset[i] + sizeRegion[i] * sectors[i] {
          region := i;
          break;
        }
        BytesSplit(rs, i);
        end := end + sectors[i];
      }
      if region < 0 {
        HoldingNowhere(eaddr - Bytes(rs[..|rs|]));
        return None;
      }
      return Some(end + (eaddr - regionOffset[region]) / sizeRegion[region]);
    }

    /** sector_range_calc; None when it panics. */
    method SectorRangeCalc(saddr: nat, eaddr: nat) returns (r: Option<(nat, nat)>)
      requires Valid()
      ensures r == if Holding(Regions(), saddr).Some? && Ending(Regions(), eaddr).Some?
                   then Some((Holding(Regions(), saddr).value, Ending(Regions(), eaddr).value)) else None
    {
      var start := StartSector(saddr);
      if start.None? {
        return None;
      }
      var end := EndSector(eaddr);
      if end.None? {
        return None;
      }
      return Some((start.value, end.value));
    }

    /** sector_to_address; None when it panics. */
    method SectorToAddress(sector: nat) returns (r: Option<nat>)
      requires Valid()
      ensures r == First(Regions(), sector)
    {
      hide Area, First;
      ghost var rs := Regions();
      var tmpSector: nat, region := 0, -1;
      assert rs[0..] == rs;
      for i := 0 to |sectors|
        invariant region == -1 && tmpSector <= sector
        invariant First(rs, sector) == Plus(First(rs[i..], sector - tmpSector), Bytes(rs[..i]))
      {
        FirstStep(rs, i, sector - tmpSector);
        if sector <= tmpSector + sectors[i] {
          region := i;
          break;
        }
        BytesSplit(rs, i);
        tmpSector := tmpSector + sectors[i];
      }
      if region < 0 {
        FirstNowhere(sector - tmpSector);
        return None;
      }
      return Some(regionOffset[region] + (sector - tmpSector) * sizeRegion[region]);
    }

    /** sector_to_end_address; None when it panics. */
    method SectorToEndAddress(sector: nat) returns (r: Option<nat>)
      requires Valid()
      ensures r == Behind(Regions(), sector)
    {
      hide Area, Behind;
      ghost var rs := Regions();
      var tmpSector: nat, region := 0, -1;
      assert rs[0..] == rs;
      for i := 0 to |sectors|
        invariant region == -1 && tmpSector <= sector
        invariant Behind(rs, sector) == Plus(Behind(rs[i..], sector - tmpSector), Bytes(rs[..i]))
      {
        FirstStep(rs, i, sector - tmpSector);
        if sector < tmpSector + sectors[i] {
          region := i;
          break;
        }
        BytesSplit(rs, i);
        tmpSector := tmpSector + sectors[i];
      }
      if region < 0 {
        FirstNowhere(sector - tmpSector);
        return None;
      }
      return Some(regionOffset[region] + (sector - tmpSector) * sizeRegion[region] + sizeRegion[region]);
    }
  }
}
