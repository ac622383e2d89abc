/**
 * QtsDvdProgramChainDemux: extraction of one program chain (PGC) of a DVD
 * title set. InputSectors walks the sectors of the PGC cell by cell, range
 * by range; VobFileSet maps a sector of the title set to a VOB file; the
 * demultiplexer checks each pack and keeps the ones of the PGC.
 */
module ProgramChainDemux {
  import opened Bytes
  import opened QtlRange

  const SectorSize: int := 2048

  /** A cell of a PGC: its ids and the ranges of sectors it covers. */
  datatype PgcCell = PgcCell(cellId: int, originalVobId: int, originalCellId: int, sectors: seq<Span>)

  // ---------------------------------------------------------------------
  // The sectors of a PGC, in reading order
  // ---------------------------------------------------------------------

  /** Ranges that start at a non-negative sector and are well formed. */
  predicate GoodRanges(ranges: seq<Span>)
  {
    forall j :: 0 <= j < |ranges| ==> ValidSpan(ranges[j]) && ranges[j].first >= 0
  }

  predicate GoodCells(cells: seq<PgcCell>)
  {
    forall i :: 0 <= i < |cells| ==> GoodRanges(cells[i].sectors)
  }

  /** The sectors of one range, in increasing order. */
  ghost function RangeSectors(r: Span): (s: seq<int>)
    requires r.count >= 0
    ensures |s| == r.count
  {
    seq(r.count, k requires 0 <= k < r.count => r.first + k)
  }

  /** The sectors of a list of ranges, range after range. */
  ghost function RangesSectors(ranges: seq<Span>): seq<int>
    requires GoodRanges(ranges)
  {
    if |ranges| == 0 then [] else RangesSectors(ranges[..|ranges| - 1]) + RangeSectors(ranges[|ranges| - 1])
  }

  /** The sectors of a list of cells, cell after cell. */
  ghost function CellsSectors(cells: seq<PgcCell>): seq<int>
    requires GoodCells(cells)
  {
    if |cells| == 0 then [] else CellsSectors(cells[..|cells| - 1]) + RangesSectors(cells[|cells| - 1].sectors)
  }

  lemma {:induction false} RangesSectorsPrefix(ranges: seq<Span>, a: nat, b: nat)
    requires GoodRanges(ranges) && a <= b <= |ranges|
    ensures RangesSectors(ranges[..a]) <= RangesSectors(ranges[..b])
    decreases b - a
  {
    if a < b {
      RangesSectorsPrefix(ranges, a, b - 1);
      assert ranges[..b][..b - 1] == ranges[..b - 1];
    }
  }

  lemma {:induction false} CellsSectorsPrefix(cells: seq<PgcCell>, a: nat, b: nat)
    requires GoodCells(cells) && a <= b <= |cells|
    ensures CellsSectors(cells[..a]) <= CellsSectors(cells[..b])
    decreases b - a
  {
    if a < b {
      CellsSectorsPrefix(cells, a, b - 1);
      assert cells[..b][..b - 1] == cells[..b - 1];
    }
  }

  /**
   * The sector at offset `offset` of range `r` of cell `c` is found in the
   * whole list at the number of sectors that precede it.
   */
  lemma SectorPosition(cells: seq<PgcCell>, c: nat, r: nat, offset: nat)
    requires GoodCells(cells) && c < |cells| && r < |cells[c].sectors| && offset < cells[c].sectors[r].count
    ensures var ranges := cells[c].sectors;
      var p := |CellsSectors(cells[..c])| + |RangesSectors(ranges[..r])| + offset;
      p < |CellsSectors(cells)| && CellsSectors(cells)[p] == ranges[r].first + offset
  {
    var ranges := cells[c].sectors;
    RangesSectorsPrefix(ranges, r + 1, |ranges|);
    assert ranges[..r + 1][..r] == ranges[..r];
    assert ranges[..|ranges|] == ranges;
    var inCell := RangesSectors(ranges);
    var q := |RangesSectors(ranges[..r])| + offset;
    assert inCell[q] == ranges[r].first + offset;
    CellsSectorsPrefix(cells, c + 1, |cells|);
    assert cells[..c + 1][..c] == cells[..c];
    assert cells[..|cells|] == cells;
    assert CellsSectors(cells[..c + 1]) == CellsSectors(cells[..c]) + inCell;
  }

  /**
   * The number of sectors before an intermediate state of advance(): cell
   * c, range r of that cell (whose ranges are `ranges`), sector s, where -1
   * marks a cell or range not yet entered.
   */
  ghost function Progress(cells: seq<PgcCell>, ranges: seq<Span>, c: int, r: int, s: int): int
    requires GoodCells(cells) && 0 <= c <= |cells|
    requires c < |cells| && r >= 0 ==> ranges == cells[c].sectors && r <= |ranges|
  {
    if c == |cells| then |CellsSectors(cells)|
    else if r < 0 then |CellsSectors(cells[..c])|
    else (|CellsSectors(cells[..c])| + |RangesSectors(ranges[..r])|
      + (if r < |ranges| && s >= 0 then s - ranges[r].first else 0))
  }

  /** Entering a cell, and leaving its last range for the next cell, skip no sector. */
  lemma NextCell(cells: seq<PgcCell>, c: nat)
    requires GoodCells(cells) && c < |cells|
    ensures var ranges := cells[c].sectors;
      Progress(cells, ranges, c, |ranges|, -1) == Progress(cells, ranges, c + 1, -1, -1)
      && Progress(cells, ranges, c, 0, -1) == Progress(cells, ranges, c, -1, -1)
  {
    var ranges := cells[c].sectors;
    assert ranges[..|ranges|] == ranges;
    assert cells[..c + 1][..c] == cells[..c];
    if c + 1 == |cells| {
      assert cells[..c + 1] == cells;
    }
  }

  /** Leaving range r moves past all of its sectors. */
  lemma NextRange(cells: seq<PgcCell>, c: nat, r: nat)
    requires GoodCells(cells) && c < |cells| && r < |cells[c].sectors|
    ensures var ranges := cells[c].sectors;
      Progress(cells, ranges, c, r + 1, -1) == Progress(cells, ranges, c, r, ranges[r].first) + ranges[r].count
  {
    var ranges := cells[c].sectors;
    assert ranges[..r + 1][..r] == ranges[..r];
  }

  /** The state of the cursor of advance(): cell c, range r of it (whose ranges are rs), sector s. */
  predicate WalkState(cells: seq<PgcCell>, c: int, rs: seq<Span>, r: int, s: int)
  {
    GoodCells(cells) && 0 <= c <= |cells|
    && (c < |cells| && r >= 0 ==> rs == cells[c].sectors && r <= |rs|)
    && (c < |cells| && 0 <= r < |rs| && s >= 0 ==> rs[r].first <= s < End(rs[r]))
  }

  /**
   * The loop of advance(): move `count` sectors forward through the ranges
   * of each cell, entering each cell and range as it comes, and stop on a
   * sector or past the last cell.
   */
  method Walk(cells: seq<PgcCell>, c0: int, rs0: seq<Span>, r0: int, s0: int, count0: nat)
    returns (c: int, rs: seq<Span>, r: int, sector: int)
    requires WalkState(cells, c0, rs0, r0, s0)
    ensures WalkState(cells, c, rs, r, sector)
    ensures var target := Progress(cells, rs0, c0, r0, s0) + count0;
      if c == |cells| then target >= |CellsSectors(cells)|
      else (0 <= r < |rs| && rs == cells[c].sectors && sector >= 0
            && Progress(cells, rs, c, r, sector) == target && target < |CellsSectors(cells)|)
  {
    var count := count0;
    ghost var target := Progress(cells, rs0, c0, r0, s0) + count0;
    c, rs, r, sector := c0, rs0, r0, s0;
    while c < |cells|
      invariant WalkState(cells, c, rs, r, sector) && count >= 0
      invariant Progress(cells, rs, c, r, sector) + count == target
      decreases |cells| - c, (if r < 0 then 1 else 0), |rs| - r, (if sector < 0 then 1 else 0)
    {
      ghost var p := Progress(cells, rs, c, r, sector);
      if r < 0 {
        rs := cells[c].sectors;
        r := 0;
        sector := -1;
        NextCell(cells, c);
        assert Progress(cells, rs, c, r, sector) == p;
      }
      if r >= |rs| {
        NextCell(cells, c);
        assert p == Progress(cells, rs, c, r, -1);
        c := c + 1;
        r := -1;
        assert Progress(cells, rs, c, r, sector) == p;
        continue;
      }
      if sector < 0 {
        sector := rs[r].first;
        assert Progress(cells, rs, c, r, sector) == p;
      }
      var remain := Last(rs[r]) - sector + 1;
      if count < remain {
        sector := sector + count;
        SectorPosition(cells, c, r, sector - rs[r].first);
        return;
      }
      LeaveRange(cells, c, r, sector);
      count := count - remain;
      r := r + 1;
      sector := -1;
      assert Progress(cells, rs, c, r, sector) == p + remain;
    }
  }

  /** Leaving range r from sector s moves past the sectors from s to its end. */
  lemma LeaveRange(cells: seq<PgcCell>, c: nat, r: nat, s: int)
    requires GoodCells(cells) && c < |cells| && r < |cells[c].sectors|
    requires cells[c].sectors[r].first <= s <= End(cells[c].sectors[r])
    ensures var rs := cells[c].sectors;
      Last(rs[r]) == End(rs[r]) - 1
      && Progress(cells, rs, c, r + 1, -1) == Progress(cells, rs, c, r, s) + (End(rs[r]) - s)
  {
    NextRange(cells, c, r);
  }

  // ---------------------------------------------------------------------
  // InputSectors: a cursor over cells, ranges and sectors
  // ---------------------------------------------------------------------

  class InputSectors {
    var cells: seq<PgcCell>
    var currentCell: int
    var ranges: seq<Span>
    var currentRange: int
    var currentSector: int

    /** A cursor before initialize(): no cells, every index -1. */
    constructor ()
      ensures cells == [] && currentCell == -1 && currentRange == -1 && currentSector == -1 && ranges == []
      ensures Valid() && Position() == 0
    {
      cells := [];
      currentCell := -1;
      ranges := [];
      currentRange := -1;
      currentSector := -1;
    }

    /** The cursor rests on a sector of the current range, or past the last cell. */
    predicate OnSector()
      reads this
    {
      currentCell == |cells|
      || (0 <= currentCell < |cells| && ranges == cells[currentCell].sectors
          && 0 <= currentRange < |ranges|
          && ranges[currentRange].first <= currentSector < End(ranges[currentRange]))
    }

    predicate Valid()
      reads this
    {
      GoodCells(cells) && (currentCell == -1 || OnSector())
    }

    /** The number of sectors before the cursor. */
    ghost function Position(): nat
      reads this
      requires Valid()
    {
      if currentCell == -1 then 0
      else if currentCell == |cells| then |CellsSectors(cells)|
      else (|CellsSectors(cells[..currentCell])| + |RangesSectors(ranges[..currentRange])|
        + (currentSector - ranges[currentRange].first))
    }

    /** currentSectorAddress: the sector under the cursor, -1 past the end. */
    function CurrentSectorAddress(): (address: int)
      reads this
      requires Valid() && currentCell != -1
      ensures address == -1 <==> Position() == |CellsSectors(cells)|
      ensures address != -1 ==> Position() < |CellsSectors(cells)| && address == CellsSectors(cells)[Position()]
    {
      if 0 <= currentCell < |cells| then
        SectorPosition(cells, currentCell, currentRange, currentSector - ranges[currentRange].first);
        currentSector
      else
        -1
    }

    /** currentSectorCount: the sectors left in the current range, -1 past the end. */
    function CurrentSectorCount(): (count: int)
      reads this
      requires Valid() && currentCell != -1
      ensures count == -1 <==> Position() == |CellsSectors(cells)|
      ensures count != -1 ==> 1 <= count && Position() + count <= |CellsSectors(cells)|
    {
      if 0 <= currentCell < |cells| then
        var remain := Last(ranges[currentRange]) - currentSector + 1;
        SectorPosition(cells, currentCell, currentRange, currentSector - ranges[currentRange].first + remain - 1);
        remain
      else
        -1
    }

    /** getCurrentOriginalIds: the original VOB and cell ids of the current cell, 0 and 0 outside the cells. */
    function CurrentOriginalIds(): (ids: (int, int))
      reads this
      ensures 0 <= currentCell < |cells| ==> ids == (cells[currentCell].originalVobId, cells[currentCell].originalCellId)
      ensures !(0 <= currentCell < |cells|) ==> ids == (0, 0)
    {
      if 0 <= currentCell < |cells| then (cells[currentCell].originalVobId, cells[currentCell].originalCellId) else (0, 0)
    }

    /**
     * advance: move forward `sectorCount` sectors (none when negative),
     * through the ranges of each cell and then to the next cell, stopping
     * past the last cell.
     */
    method Advance(sectorCount: int)
      requires Valid()
      modifies this
      ensures Valid() && currentCell != -1 && cells == old(cells)
      ensures var target := old(Position()) + (if sectorCount < 0 then 0 else sectorCount);
        Position() == if target < |CellsSectors(cells)| then target else |CellsSectors(cells)|
    {
      var count := if sectorCount < 0 then 0 else sectorCount;
      var c, r := currentCell, currentRange;
      if c < 0 {
        c := 0;
        r := -1;
      }
      assert Progress(cells, ranges, c, r, currentSector) == Position();
      currentCell, ranges, currentRange, currentSector := Walk(cells, c, ranges, r, currentSector, count);
    }

    /**
     * initialize: the cells of the PGC (none for a null PGC), with the
     * cursor moved onto the first sector.
     */
    method Initialize(pgc: Option<seq<PgcCell>>)
      requires pgc.Some? ==> GoodCells(pgc.value)
      modifies this
      ensures Valid() && currentCell != -1 && Position() == 0
      ensures cells == if pgc.None? then [] else pgc.value
    {
      if pgc.None? {
        cells := [];
      } else {
        cells := pgc.value;
      }
      currentCell := -1;
      Advance(0);
    }
  }

  // ---------------------------------------------------------------------
  // demuxBuffer: the packs of one read, checked, filtered and fixed
  // ---------------------------------------------------------------------

  /**
   * What to do with navigation packs: keep them as read, rewrite the
   * logical block address they carry, or drop them.
   */
  datatype DvdDemuxPolicy = NavPacksUnchanged | NavPacksFixed | NavPacksRemoved

  const PackStartCode: int := 0x0000_01BA
  const SystemHeaderStartCode: int := 0x0000_01BB
  const PrivateStream2StartCode: int := 0x0000_01BF

  /** Sector `k` of a buffer. */
  function SectorAt(buffer: seq<byte>, k: nat): (sector: seq<byte>)
    requires (k + 1) * 2048 <= |buffer|
    ensures |sector| == SectorSize
  {
    buffer[k * 2048..(k + 1) * 2048]
  }

  /**
   * An MPEG-2 program stream pack (section 2.5.3.3 of ISO/IEC 13818-1)
   * begins with the pack start code.
   */
  predicate PackStartOk(sector: seq<byte>)
  {
    BE32(sector, 0) == PackStartCode
  }

  /**
   * A navigation pack: a system header at 0x0E, then a PCI packet and, at
   * 0x400, a private stream 2 packet whose substream id 1 marks the DSI.
   */
  predicate IsNavPack(sector: seq<byte>)
  {
    BE32(sector, 0x0E) == SystemHeaderStartCode && BE32(sector, 0x400) == PrivateStream2StartCode && At(sector, 0x406) == 1
  }

  /** The navigation pack belongs to the VOB and cell being extracted. */
  predicate NavPackInCell(sector: seq<byte>, vobId: int, cellId: int)
  {
    BE16(sector, 0x41F) == vobId && At(sector, 0x422) == cellId
  }

  /** The sector with its logical block address, in the PCI and in the DSI, set to `address` as a quint32. */
  function WithAddress(sector: seq<byte>, address: int): (r: seq<byte>)
    requires |sector| == SectorSize
    ensures |r| == SectorSize
  {
    var field := EncodeBE32(U32(address));
    Patch(Patch(sector, 0x2D, field), 0x40B, field)
  }

  /** The sector as demuxBuffer leaves it in the buffer: navigation packs are fixed under NavPacksFixed. */
  function FixSector(sector: seq<byte>, writtenSectors: int, policy: DvdDemuxPolicy): (r: seq<byte>)
    requires |sector| == SectorSize
    ensures |r| == SectorSize
    ensures !(IsNavPack(sector) && policy == NavPacksFixed) ==> r == sector
  {
    if IsNavPack(sector) && policy == NavPacksFixed then WithAddress(sector, writtenSectors) else sector
  }

  /** The demultiplexer state that demuxBuffer updates. */
  datatype DemuxState = DemuxState(inPgcContent: bool, writtenSectors: int, output: seq<byte>)

  /** The sector is written: it is PGC content and not a navigation pack to drop. */
  predicate Written(inPgcContent: bool, sector: seq<byte>, policy: DvdDemuxPolicy)
  {
    inPgcContent && (!IsNavPack(sector) || policy != NavPacksRemoved)
  }

  /** One sector with a valid pack start code through the demultiplexer. */
  function Step(st: DemuxState, sector: seq<byte>, vobId: int, cellId: int, policy: DvdDemuxPolicy): (r: DemuxState)
    requires |sector| == SectorSize
    ensures IsNavPack(sector) ==> r.inPgcContent == NavPackInCell(sector, vobId, cellId)
    ensures !IsNavPack(sector) ==> r.inPgcContent == st.inPgcContent
    ensures Written(r.inPgcContent, sector, policy) ==>
      r.writtenSectors == st.writtenSectors + 1 && r.output == st.output + FixSector(sector, st.writtenSectors, policy)
    ensures !Written(r.inPgcContent, sector, policy) ==> r.writtenSectors == st.writtenSectors && r.output == st.output
  {
    var inPgc := if IsNavPack(sector) then NavPackInCell(sector, vobId, cellId) else st.inPgcContent;
    if Written(inPgc, sector, policy) then
      DemuxState(inPgc, st.writtenSectors + 1, st.output + FixSector(sector, st.writtenSectors, policy))
    else
      DemuxState(inPgc, st.writtenSectors, st.output)
  }

  /** The outcome of demuxBuffer: its status, the new state and the buffer with its fixed packs. */
  datatype RunResult = RunResult(ok: bool, state: DemuxState, buffer: seq<byte>)

  /**
   * The first `n` sectors of the buffer through the demultiplexer, stopping
   * with a failure at the first sector without a pack start code.
   */
  function Run(st: DemuxState, buffer: seq<byte>, n: nat, vobId: int, cellId: int, policy: DvdDemuxPolicy): (r: RunResult)
    requires n * 2048 <= |buffer|
    ensures |r.buffer| == |buffer|
  {
    if n == 0 then RunResult(true, st, buffer)
    else
      var prev := Run(st, buffer, n - 1, vobId, cellId, policy);
      if !prev.ok then prev
      else
        var sector := SectorAt(prev.buffer, n - 1);
        if !PackStartOk(sector) then prev.(ok := false)
        else
          RunResult(true, Step(prev.state, sector, vobId, cellId, policy),
            Patch(prev.buffer, (n - 1) * 2048, FixSector(sector, prev.state.writtenSectors, policy)))
  }

  /** One more sector: checked, then demultiplexed and fixed in place, unless the run already failed. */
  lemma RunNext(st: DemuxState, buffer: seq<byte>, n: nat, vobId: int, cellId: int, policy: DvdDemuxPolicy)
    requires 0 < n && n * 2048 <= |buffer|
    ensures var prev := Run(st, buffer, n - 1, vobId, cellId, policy);
      var r := Run(st, buffer, n, vobId, cellId, policy);
      var sector := SectorAt(prev.buffer, n - 1);
      (r.ok <==> prev.ok && PackStartOk(sector))
      && (r.ok ==> (r.state == Step(prev.state, sector, vobId, cellId, policy)
            && r.buffer == Patch(prev.buffer, (n - 1) * 2048, FixSector(sector, prev.state.writtenSectors, policy))))
      && (!r.ok ==> r.state == prev.state && r.buffer == prev.buffer)
  {
  }

  /** Sectors from `n` on are still as read after the first `n` sectors went through. */
  lemma {:induction false} RunKeepsRest(st: DemuxState, buffer: seq<byte>, n: nat, vobId: int, cellId: int, policy: DvdDemuxPolicy)
    requires n * 2048 <= |buffer|
    ensures Run(st, buffer, n, vobId, cellId, policy).buffer[n * 2048..] == buffer[n * 2048..]
  {
    if n > 0 {
      RunKeepsRest(st, buffer, n - 1, vobId, cellId, policy);
      var prev := Run(st, buffer, n - 1, vobId, cellId, policy);
      var r := Run(st, buffer, n, vobId, cellId, policy);
      assert r.buffer[n * 2048..] == prev.buffer[n * 2048..];
      assert prev.buffer[n * 2048..] == prev.buffer[(n - 1) * 2048..][SectorSize..];
      assert buffer[n * 2048..] == buffer[(n - 1) * 2048..][SectorSize..];
    }
  }

  /** The sector that the n-th step reads is the sector as read. */
  lemma NextSectorAsRead(st: DemuxState, buffer: seq<byte>, n: nat, vobId: int, cellId: int, policy: DvdDemuxPolicy)
    requires (n + 1) * 2048 <= |buffer|
    ensures SectorAt(Run(st, buffer, n, vobId, cellId, policy).buffer, n) == SectorAt(buffer, n)
  {
    RunKeepsRest(st, buffer, n, vobId, cellId, policy);
    var prev := Run(st, buffer, n, vobId, cellId, policy);
    assert SectorAt(prev.buffer, n) == prev.buffer[n * 2048..][..SectorSize];
    assert SectorAt(buffer, n) == buffer[n * 2048..][..SectorSize];
  }

  /** Every pack start code is checked: demuxBuffer succeeds if and only if all sectors start with one. */
  lemma RunOkIffStartCodes(st: DemuxState, buffer: seq<byte>, n: nat, vobId: int, cellId: int, policy: DvdDemuxPolicy)
    requires n * 2048 <= |buffer|
    ensures Run(st, buffer, n, vobId, cellId, policy).ok <==> forall k :: 0 <= k < n ==> PackStartOk(SectorAt(buffer, k))
  {
    RunOkIffCodes(st, buffer, n, vobId, cellId, policy);
    StartCodesAll(buffer, n);
  }

  /** The first n sectors, as read, each start with a pack start code. */
  predicate StartCodes(buffer: seq<byte>, n: nat)
    requires n * 2048 <= |buffer|
  {
    n == 0 || (StartCodes(buffer, n - 1) && PackStartOk(SectorAt(buffer, n - 1)))
  }

  lemma {:induction false} RunOkIffCodes(st: DemuxState, buffer: seq<byte>, n: nat, vobId: int, cellId: int, policy: DvdDemuxPolicy)
    requires n * 2048 <= |buffer|
    ensures Run(st, buffer, n, vobId, cellId, policy).ok == StartCodes(buffer, n)
  {
    if n > 0 {
      RunOkIffCodes(st, buffer, n - 1, vobId, cellId, policy);
      RunOkStep(st, buffer, n, vobId, cellId, policy);
    }
  }

  lemma {:induction false} StartCodesAll(buffer: seq<byte>, n: nat)
    requires n * 2048 <= |buffer|
    ensures StartCodes(buffer, n) <==> forall k :: 0 <= k < n ==> PackStartOk(SectorAt(buffer, k))
  {
    if n > 0 {
      StartCodesAll(buffer, n - 1);
      StartCodesStep(buffer, n);
    }
  }

  /** The run of n sectors succeeds iff the run of n - 1 did and sector n - 1, as read, starts with a pack start code. */
  lemma RunOkStep(st: DemuxState, buffer: seq<byte>, n: nat, vobId: int, cellId: int, policy: DvdDemuxPolicy)
    requires 0 < n && n * 2048 <= |buffer|
    ensures Run(st, buffer, n, vobId, cellId, policy).ok
      <==> Run(st, buffer, n - 1, vobId, cellId, policy).ok && PackStartOk(SectorAt(buffer, n - 1))
  {
    RunNextOk(st, buffer, n, vobId, cellId, policy);
    NextStartCodeAsRead(st, buffer, n - 1, vobId, cellId, policy);
    var prev := Run(st, buffer, n - 1, vobId, cellId, policy);
    SameLastCheck(Run(st, buffer, n, vobId, cellId, policy).ok, prev.ok,
      PackStartOk(SectorAt(prev.buffer, n - 1)), PackStartOk(SectorAt(buffer, n - 1)));
  }

  /** A conjunction keeps its value when its last conjunct is replaced by an equal one. */
  lemma SameLastCheck(now: bool, before: bool, checked: bool, asRead: bool)
    requires now == (before && checked) && checked == asRead
    ensures now == (before && asRead)
  {
  }

  /** One more sector succeeds iff the run so far did and that sector, in the buffer so far, starts with a pack start code. */
  lemma RunNextOk(st: DemuxState, buffer: seq<byte>, n: nat, vobId: int, cellId: int, policy: DvdDemuxPolicy)
    requires 0 < n && n * 2048 <= |buffer|
    ensures Run(st, buffer, n, vobId, cellId, policy).ok
      <==> Run(st, buffer, n - 1, vobId, cellId, policy).ok
           && PackStartOk(SectorAt(Run(st, buffer, n - 1, vobId, cellId, policy).buffer, n - 1))
  {
  }

  /** The pack start code the n-th step checks is the one read. */
  lemma NextStartCodeAsRead(st: DemuxState, buffer: seq<byte>, n: nat, vobId: int, cellId: int, policy: DvdDemuxPolicy)
    requires (n + 1) * 2048 <= |buffer|
    ensures PackStartOk(SectorAt(Run(st, buffer, n, vobId, cellId, policy).buffer, n)) == PackStartOk(SectorAt(buffer, n))
  {
    NextSectorAsRead(st, buffer, n, vobId, cellId, policy);
  }

  /** The first n sectors start with a pack start code iff the first n - 1 do and so does sector n - 1. */
  lemma StartCodesStep(buffer: seq<byte>, n: nat)
    requires 0 < n && n * 2048 <= |buffer|
    ensures (forall k :: 0 <= k < n ==> PackStartOk(SectorAt(buffer, k)))
      <==> (forall k :: 0 <= k < n - 1 ==> PackStartOk(SectorAt(buffer, k))) && PackStartOk(SectorAt(buffer, n - 1))
  {
  }

  /**
   * The output grows by one sector per written sector, and no more sectors
   * are written than were read.
   */
  lemma {:induction false} RunWritesWholeSectors(st: DemuxState, buffer: seq<byte>, n: nat, vobId: int, cellId: int, policy: DvdDemuxPolicy)
    requires n * 2048 <= |buffer|
    ensures var r := Run(st, buffer, n, vobId, cellId, policy).state;
      st.writtenSectors <= r.writtenSectors <= st.writtenSectors + n
      && |r.output| == |st.output| + (r.writtenSectors - st.writtenSectors) * 2048
      && r.output[..|st.output|] == st.output
  {
    if n > 0 {
      RunWritesWholeSectors(st, buffer, n - 1, vobId, cellId, policy);
    }
  }

  /**
   * Under NavPacksFixed, a navigation pack that is written carries, in its
   * PCI and its DSI, its own sector number in the output.
   */
  lemma FixedNavPackAddress(st: DemuxState, sector: seq<byte>, vobId: int, cellId: int)
    requires |sector| == SectorSize && IsNavPack(sector) && NavPackInCell(sector, vobId, cellId)
    ensures var r := Step(st, sector, vobId, cellId, NavPacksFixed);
      var out := r.output[|st.output|..];
      out == r.output[(r.writtenSectors - 1 - st.writtenSectors) * 2048 + |st.output|..]
      && |out| == SectorSize
      && BE32(out, 0x2D) == U32(st.writtenSectors) && BE32(out, 0x40B) == U32(st.writtenSectors)
  {
    var field := EncodeBE32(U32(st.writtenSectors));
    var out := WithAddress(sector, st.writtenSectors);
    var once := Patch(sector, 0x2D, field);
    assert out[0x2D..0x31] == once[0x2D..0x31] == field;
    assert out[0x40B..0x40F] == field;
    assert BE32(out, 0x2D) == BE32(field, 0);
    assert BE32(out, 0x40B) == BE32(field, 0);
  }

  /** Under NavPacksRemoved, no navigation pack reaches the output. */
  lemma RemovedNavPackDropped(st: DemuxState, sector: seq<byte>, vobId: int, cellId: int)
    requires |sector| == SectorSize && IsNavPack(sector)
    ensures Step(st, sector, vobId, cellId, NavPacksRemoved).output == st.output
  {
  }

  /** The demultiplexer of one PGC of a title set. */
  class Demux {
    /** The cells of the PGC to extract; None when the title set has no such PGC. */
    const pgc: Option<seq<PgcCell>>
    const angleNumber: int
    const policy: DvdDemuxPolicy
    const inputSectors: InputSectors
    /** First sector of the VOB files on the DVD media, -1 when reading VOB files. */
    var vobStartSector: int
    var inPgcContent: bool
    var writtenSectors: int
    /** Everything passed to write(), in order. */
    var output: seq<byte>

    predicate Valid()
      reads this, inputSectors
    {
      inputSectors.Valid() && (pgc.Some? ==> GoodCells(pgc.value))
    }

    /**
     * The demultiplexer of PGC `pgc`, or of the fallback PGC when the title
     * set has no PGC with the requested number.
     */
    constructor (pgc': Option<seq<PgcCell>>, fallback: Option<seq<PgcCell>>, angleNumber': int, policy': DvdDemuxPolicy)
      requires pgc'.Some? ==> GoodCells(pgc'.value)
      requires fallback.Some? ==> GoodCells(fallback.value)
      ensures pgc == (if pgc'.None? then fallback else pgc')
      ensures angleNumber == angleNumber' && policy == policy' && fresh(inputSectors) && Valid()
      ensures vobStartSector == -1 && !inPgcContent && writtenSectors == 0 && output == []
    {
      pgc := if pgc'.None? then fallback else pgc';
      angleNumber := angleNumber';
      policy := policy';
      inputSectors := new InputSectors();
      vobStartSector := -1;
      inPgcContent := false;
      writtenSectors := 0;
      output := [];
    }

    /**
     * initializeTransfer: fails without a PGC or with an angle below 1;
     * otherwise positions the input on the first sector of the PGC and
     * resets the state. On an encrypted DVD the VOB files must be located
     * on the media (`mediaVobStart`) and the device opened (`deviceOpened`).
     */
    method InitializeTransfer(encrypted: bool, mediaVobStart: int, deviceOpened: bool) returns (ok: bool)
      requires Valid()
      modifies this, inputSectors
      ensures Valid()
      ensures pgc.None? || angleNumber < 1 ==>
        !ok && State() == old(State()) && vobStartSector == old(vobStartSector) && unchanged(inputSectors)
      ensures pgc.Some? && angleNumber >= 1 ==>
        inputSectors.cells == pgc.value && inputSectors.currentCell != -1 && inputSectors.Position() == 0
        && inPgcContent && writtenSectors == 0 && output == old(output)
        && (encrypted ==> vobStartSector == mediaVobStart && ok == (mediaVobStart >= 0 && deviceOpened))
        && (!encrypted ==> ok && vobStartSector == old(vobStartSector))
    {
      if pgc.None? {
        return false;
      }
      if angleNumber < 1 {
        return false;
      }
      inputSectors.Initialize(pgc);
      inPgcContent := true;
      writtenSectors := 0;
      if encrypted {
        vobStartSector := mediaVobStart;
        if vobStartSector < 0 {
          return false;
        }
        if !deviceOpened {
          return false;
        }
      }
      return true;
    }

    function State(): DemuxState
      reads this
    {
      DemuxState(inPgcContent, writtenSectors, output)
    }

    /**
     * demuxBuffer: the first `sectorCount` sectors of the buffer are checked
     * one by one, navigation packs are identified, fixed or dropped, and
     * the sectors of the PGC are written out.
     */
    method DemuxBuffer(buffer: array<byte>, sectorCount: int) returns (ok: bool)
      requires sectorCount * 2048 <= buffer.Length
      modifies this, buffer
      ensures var ids := inputSectors.CurrentOriginalIds();
        Run(old(State()), old(buffer[..]), if sectorCount < 0 then 0 else sectorCount, ids.0, ids.1, policy)
        == RunResult(ok, State(), buffer[..])
      ensures vobStartSector == old(vobStartSector)
    {
      var ids := inputSectors.CurrentOriginalIds();
      var state;
      ok, state := DemuxSectors(buffer, if sectorCount < 0 then 0 else sectorCount, ids.0, ids.1, policy, State());
      inPgcContent, writtenSectors, output := state.inPgcContent, state.writtenSectors, state.output;
    }
  }

  /**
   * The loop of demuxBuffer over the first n sectors of the buffer, with
   * the demultiplexer state carried in `state`.
   */
  method DemuxSectors(buffer: array<byte>, n: nat, vobId: int, cellId: int, policy: DvdDemuxPolicy, st: DemuxState)
    returns (ok: bool, state: DemuxState)
    requires n * 2048 <= buffer.Length
    modifies buffer
    ensures Run(st, old(buffer[..]), n, vobId, cellId, policy) == RunResult(ok, state, buffer[..])
  {
    ghost var original := buffer[..];
    state := st;
    var k: nat := 0;
    while k < n
      invariant k <= n
      invariant Run(st, original, k, vobId, cellId, policy) == RunResult(true, state, buffer[..])
    {
      ok, state := DemuxSector(buffer, k, vobId, cellId, policy, state, st, original);
      if !ok {
        RunStaysFailed(st, original, k + 1, n, vobId, cellId, policy);
        return;
      }
      k := k + 1;
    }
    return true, state;
  }

  /** The body of the loop of demuxBuffer on sector k, as the next step of the run from `st` on `original`. */
  method DemuxSector(buffer: array<byte>, k: nat, vobId: int, cellId: int, policy: DvdDemuxPolicy, state: DemuxState,
                     ghost st: DemuxState, ghost original: seq<byte>)
    returns (ok: bool, state': DemuxState)
    requires (k + 1) * 2048 <= buffer.Length == |original|
    requires Run(st, original, k, vobId, cellId, policy) == RunResult(true, state, buffer[..])
    modifies buffer
    ensures Run(st, original, k + 1, vobId, cellId, policy) == RunResult(ok, state', buffer[..])
  {
    ok, state' := PackStep(buffer, k * 2048, vobId, cellId, policy, state);
    RunAfterSector(st, original, k, vobId, cellId, policy, state, old(buffer[..]), ok, state', buffer[..]);
  }

  /** The body of the loop of demuxBuffer: check the sector at `sectorStart`, then filter and fix it. */
  method PackStep(buffer: array<byte>, sectorStart: int, vobId: int, cellId: int, policy: DvdDemuxPolicy, st: DemuxState)
    returns (ok: bool, state: DemuxState)
    requires 0 <= sectorStart && sectorStart + 2048 <= buffer.Length
    modifies buffer
    ensures var sector := old(buffer[sectorStart..sectorStart + 2048]);
      ok == PackStartOk(sector)
      && (ok ==> (state == Step(st, sector, vobId, cellId, policy)
            && buffer[..] == Patch(old(buffer[..]), sectorStart, FixSector(sector, st.writtenSectors, policy))))
      && (!ok ==> state == st && buffer[..] == old(buffer[..]))
  {
    state := st;
    ghost var sector := buffer[sectorStart..sectorStart + 2048];
    if BE32(buffer[sectorStart..sectorStart + 4], 0) != PackStartCode {
      assert sector[..4] == buffer[sectorStart..sectorStart + 4];
      return false, state;
    }
    assert sector[..4] == buffer[sectorStart..sectorStart + 4];
    var isNavPack := IsNavPack(buffer[sectorStart..sectorStart + 2048]);
    if isNavPack {
      state := state.(inPgcContent := NavPackInCell(buffer[sectorStart..sectorStart + 2048], vobId, cellId));
      if policy == NavPacksFixed {
        FixNavPack(buffer, sectorStart, state.writtenSectors);
      }
    }
    if !(isNavPack && policy == NavPacksFixed) {
      PatchSame(old(buffer[..]), sectorStart, 2048);
    }
    assert buffer[..] == Patch(old(buffer[..]), sectorStart, FixSector(sector, st.writtenSectors, policy));
    assert buffer[sectorStart..sectorStart + 2048] == FixSector(sector, st.writtenSectors, policy);
    if state.inPgcContent && (!isNavPack || policy != NavPacksRemoved) {
      state := state.(output := state.output + buffer[sectorStart..sectorStart + 2048], writtenSectors := state.writtenSectors + 1);
    }
    return true, state;
  }

  /** What the body of the loop of demuxBuffer does to sector k is the next step of the run. */
  lemma RunAfterSector(st: DemuxState, original: seq<byte>, k: nat, vobId: int, cellId: int, policy: DvdDemuxPolicy,
                       before: DemuxState, read: seq<byte>, ok: bool, after: DemuxState, written: seq<byte>)
    requires (k + 1) * 2048 <= |original|
    requires Run(st, original, k, vobId, cellId, policy) == RunResult(true, before, read)
    requires var sector := read[k * 2048..k * 2048 + 2048];
      ok == PackStartOk(sector)
      && (ok ==> (after == Step(before, sector, vobId, cellId, policy)
            && written == Patch(read, k * 2048, FixSector(sector, before.writtenSectors, policy))))
      && (!ok ==> after == before && written == read)
    ensures Run(st, original, k + 1, vobId, cellId, policy) == RunResult(ok, after, written)
  {
    RunNext(st, original, k + 1, vobId, cellId, policy);
    assert SectorAt(read, k) == read[k * 2048..k * 2048 + 2048];
  }

  /** Both logical block address fields of the navigation pack at `sectorStart` set to `address`. */
  method FixNavPack(buffer: array<byte>, sectorStart: int, address: int)
    requires 0 <= sectorStart && sectorStart + 2048 <= buffer.Length
    modifies buffer
    ensures buffer[..] == Patch(old(buffer[..]), sectorStart, WithAddress(old(buffer[sectorStart..sectorStart + 2048]), address))
    ensures buffer[sectorStart..sectorStart + 2048] == WithAddress(old(buffer[sectorStart..sectorStart + 2048]), address)
  {
    ghost var before := buffer[..];
    StoreUInt32(buffer, sectorStart + 0x2D, address);
    StoreUInt32(buffer, sectorStart + 0x40B, address);
    NavPackPatches(before, sectorStart, EncodeBE32(U32(address)));
    PatchContents(before, sectorStart, WithAddress(before[sectorStart..sectorStart + 2048], address));
  }

  /** The two field stores of a navigation pack, made in the buffer, patch its sector. */
  lemma NavPackPatches(b: seq<byte>, start: int, field: seq<byte>)
    requires 0 <= start && start + 2048 <= |b| && |field| == 4
    ensures Patch(Patch(b, start + 0x2D, field), start + 0x40B, field)
            == Patch(b, start, Patch(Patch(b[start..start + 2048], 0x2D, field), 0x40B, field))
  {
    var sector := b[start..start + 2048];
    var once := Patch(sector, 0x2D, field);
    var inner := Patch(once, 0x40B, field);
    var lhs1 := Patch(b, start + 0x2D, field);
    PatchContents(b, start + 0x2D, field);
    PatchContents(lhs1, start + 0x40B, field);
    PatchContents(sector, 0x2D, field);
    PatchContents(once, 0x40B, field);
    PatchContents(b, start, inner);
    var lhs := Patch(lhs1, start + 0x40B, field);
    var rhs := Patch(b, start, inner);
    forall k | 0 <= k < |b|
      ensures lhs[k] == rhs[k]
    {
      if start <= k < start + 2048 {
        assert sector[k - start] == b[k];
      }
    }
  }

  /** storeUInt32: the four bytes at `index` become `value` as a big-endian quint32. */
  method StoreUInt32(buffer: array<byte>, index: int, value: int)
    requires 0 <= index && index + 4 <= buffer.Length
    modifies buffer
    ensures buffer[..] == Patch(old(buffer[..]), index, EncodeBE32(U32(value)))
  {
    var field := EncodeBE32(U32(value));
    buffer[index] := field[0];
    buffer[index + 1] := field[1];
    buffer[index + 2] := field[2];
    buffer[index + 3] := field[3];
  }

  /** Once a sector has failed, the run stays failed and changes nothing more. */
  lemma {:induction false} RunStaysFailed(st: DemuxState, buffer: seq<byte>, n: nat, m: nat, vobId: int, cellId: int, policy: DvdDemuxPolicy)
    requires n <= m && m * 2048 <= |buffer| && !Run(st, buffer, n, vobId, cellId, policy).ok
    ensures Run(st, buffer, m, vobId, cellId, policy) == Run(st, buffer, n, vobId, cellId, policy)
    decreases m - n
  {
    if n < m {
      RunStaysFailed(st, buffer, n, m - 1, vobId, cellId, policy);
    }
  }

  // ---------------------------------------------------------------------
  // VobFileSet: the VOB files of a title set as one sequence of sectors
  // ---------------------------------------------------------------------

  /**
   * The files follow each other: file i holds size_i / 2048 sectors (a
   * partial last sector is ignored) and starts where file i-1 ends.
   */
  predicate Contiguous(files: seq<seq<byte>>, sectors: seq<Span>)
  {
    |sectors| == |files|
    && (forall i :: 0 <= i < |sectors| ==> sectors[i].count == |files[i]| / 2048)
    && (|sectors| > 0 ==> sectors[0].first == 0)
    && (forall i :: 0 < i < |sectors| ==> sectors[i].first == End(sectors[i - 1]))
  }

  /** Later files start after the end of earlier ones. */
  lemma {:induction false} LaterFilesAfter(files: seq<seq<byte>>, sectors: seq<Span>, i: nat, j: nat)
    requires Contiguous(files, sectors) && i < j < |sectors|
    ensures End(sectors[i]) <= sectors[j].first
    decreases j - i
  {
    if i + 1 < j {
      LaterFilesAfter(files, sectors, i, j - 1);
    }
  }

  /** A sector belongs to one file at most. */
  /** The bytes of `n` sectors from sector x on lie within the file that holds x. */
  lemma SectorBytesWithin(files: seq<seq<byte>>, sectors: seq<Span>, i: nat, x: int, n: int)
    requires Contiguous(files, sectors) && i < |sectors| && Contains(sectors[i], x)
    requires 0 <= n <= End(sectors[i]) - x
    ensures 0 <= (x - sectors[i].first) * 2048
    ensures (x - sectors[i].first) * 2048 + n * 2048 <= |files[i]|
  {
    var k := x - sectors[i].first;
    var c := sectors[i].count;
    assert c == |files[i]| / 2048 && k + n <= c;
    assert (k + n) * 2048 <= c * 2048;
    assert c * 2048 <= |files[i]|;
    assert k * 2048 + n * 2048 == (k + n) * 2048;
  }

  lemma FilesDisjoint(files: seq<seq<byte>>, sectors: seq<Span>, i: nat, j: nat, x: int)
    requires Contiguous(files, sectors) && i < |sectors| && j < |sectors|
    requires Contains(sectors[i], x) && Contains(sectors[j], x)
    ensures i == j
  {
    if i < j {
      LaterFilesAfter(files, sectors, i, j);
    } else if j < i {
      LaterFilesAfter(files, sectors, j, i);
    }
  }

  /** Every sector from 0 to the end of the last file belongs to some file. */
  lemma {:induction false} FilesCover(files: seq<seq<byte>>, sectors: seq<Span>, n: nat, x: int)
    requires Contiguous(files, sectors) && 0 < n <= |sectors| && 0 <= x < End(sectors[n - 1])
    ensures exists i :: 0 <= i < n && Contains(sectors[i], x)
  {
    if x < sectors[n - 1].first {
      assert n - 1 != 0;
      FilesCover(files, sectors, n - 1, x);
      var i :| 0 <= i < n - 1 && Contains(sectors[i], x);
    } else {
      assert Contains(sectors[n - 1], x);
    }
  }

  /** One more file, numbered from the end of the previous ones. */
  lemma ContiguousAppend(files: seq<seq<byte>>, sectors: seq<Span>, f: seq<byte>, next: int)
    requires Contiguous(files, sectors)
    requires next == if |sectors| == 0 then 0 else End(sectors[|sectors| - 1])
    ensures Contiguous(files + [f], sectors + [Span(next, |f| / 2048)])
  {
    var fs, ss := files + [f], sectors + [Span(next, |f| / 2048)];
    assert |ss| == |fs|;
    forall i | 0 <= i < |ss|
      ensures ss[i].count == |fs[i]| / 2048
    {
      if i < |sectors| {
        assert ss[i] == sectors[i] && fs[i] == files[i];
      }
    }
    forall i | 0 < i < |ss|
      ensures ss[i].first == End(ss[i - 1])
    {
      assert ss[i - 1] == sectors[i - 1];
      if i < |sectors| {
        assert ss[i] == sectors[i];
      }
    }
    assert ss[0].first == 0;
    assert Contiguous(fs, ss);
  }

  class VobFileSet {
    /** The content of each VOB file, in order. */
    const files: seq<seq<byte>>
    /** The sectors of each file in the whole sequence. */
    const sectors: seq<Span>
    /** For each file, the sector its read position is on; -1 before the first seek. */
    var nextSectors: seq<int>
    /** The file of the last read, -1 before the first. */
    var current: int

    predicate Valid()
      reads this
    {
      Contiguous(files, sectors) && |nextSectors| == |files|
    }

    /** The files are numbered from sector 0 on, each right after the previous. */
    constructor (files': seq<seq<byte>>)
      ensures files == files' && Valid() && current == -1
      ensures forall i :: 0 <= i < |nextSectors| ==> nextSectors[i] == -1
    {
      var ranges: seq<Span> := [];
      var nextSector := 0;
      var i := 0;
      while i < |files'|
        invariant 0 <= i <= |files'| && Contiguous(files'[..i], ranges)
        invariant nextSector == if i == 0 then 0 else End(ranges[i - 1])
      {
        ContiguousAppend(files'[..i], ranges, files'[i], nextSector);
        assert files'[..i + 1] == files'[..i] + [files'[i]];
        ranges := ranges + [Span(nextSector, |files'[i]| / 2048)];
        nextSector := End(ranges[i]);
        i := i + 1;
      }
      assert files'[..i] == files';
      files := files';
      sectors := ranges;
      nextSectors := seq(|files'|, _ => -1);
      current := -1;
    }

    /**
     * The file search of read: the last file read when it holds the sector,
     * otherwise the first file that does, |files| when none does.
     */
    method Locate(sectorAddress: int)
      requires Valid()
      modifies this
      ensures Valid() && nextSectors == old(nextSectors)
      ensures 0 <= current < |files| ==>
        Contains(sectors[current], sectorAddress)
        && forall i :: 0 <= i < |files| && Contains(sectors[i], sectorAddress) ==> i == current
      ensures !(0 <= current < |files|) ==>
        current == |files| && forall i :: 0 <= i < |files| ==> !Contains(sectors[i], sectorAddress)
    {
      if current < 0 || current >= |files| || !Contains(sectors[current], sectorAddress) {
        current := 0;
        while current < |files| && !Contains(sectors[current], sectorAddress)
          invariant 0 <= current <= |files| && nextSectors == old(nextSectors)
          invariant forall j :: 0 <= j < current ==> !Contains(sectors[j], sectorAddress)
        {
          current := current + 1;
        }
      }
      if 0 <= current < |files| {
        forall i | 0 <= i < |files| && Contains(sectors[i], sectorAddress)
          ensures i == current
        {
          FilesDisjoint(files, sectors, i, current, sectorAddress);
        }
      }
    }

    /**
     * read: up to `maxSectorCount` sectors from `sectorAddress` on, within
     * the file that holds that sector: -1 when no file holds it; the number
     * of sectors read and their bytes otherwise, stopping at the end of the
     * file. A negative count is a failed read.
     */
    method Read(sectorAddress: int, maxSectorCount: int) returns (count: int, data: seq<byte>)
      requires Valid()
      modifies this
      ensures Valid()
      ensures (forall i :: 0 <= i < |files| ==> !Contains(sectors[i], sectorAddress)) ==>
        count == -1 && data == [] && current == |files| && nextSectors == old(nextSectors)
      ensures forall i :: 0 <= i < |files| && Contains(sectors[i], sectorAddress) ==>
        current == i
        && var n := if maxSectorCount < End(sectors[i]) - sectorAddress then maxSectorCount else End(sectors[i]) - sectorAddress;
          var position := (sectorAddress - sectors[i].first) * 2048;
          (n < 0 ==> count == -1 && data == [] && nextSectors == old(nextSectors)[i := sectorAddress])
          && (n >= 0 ==> (count == n && data == files[i][position..position + n * 2048]
                && nextSectors == old(nextSectors)[i := sectorAddress + n]))
    {
      Locate(sectorAddress);
      if current < 0 || current >= |files| {
        return -1, [];
      }
      var vob := current;
      if nextSectors[vob] != sectorAddress {
        nextSectors := nextSectors[vob := sectorAddress];
      }
      var last := sectors[vob].first + sectors[vob].count - 1;
      var n := if maxSectorCount < last - sectorAddress + 1 then maxSectorCount else last - sectorAddress + 1;
      if n < 0 {
        return -1, [];
      }
      var position := (sectorAddress - sectors[vob].first) * 2048;
      SectorBytesWithin(files, sectors, vob, sectorAddress, n);
      data := files[vob][position..position + n * 2048];
      nextSectors := nextSectors[vob := nextSectors[vob] + n];
      count := n;
    }
  }
}
