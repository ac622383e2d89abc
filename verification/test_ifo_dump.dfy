/**
 * TestIfoDump, the IFO dump and demux test tool: angle ids of the cells of
 * a program chain, the cells demultiplexed for one angle, the sector reader
 * over the VOB files and the BCD playback time.
 */
module TestIfoDump {
  import opened Bytes
  import opened QtlRange
  import opened DvdProgramChain

  const DvdSectorSize: int := 2048

  // ---------------------------------------------------------------------
  // Angle ids
  // ---------------------------------------------------------------------

  /** The cell category: the high nibble of the first byte of a cell playback entry (b & 0xF0). */
  function Category(b: byte): int
  {
    (b / 16) * 16
  }

  /** The angle counter once a cell of `category` is seen: 0x50 starts angle 1, 0x90/0xD0 move to the next one. */
  function NextAngle(category: int, current: int): int
  {
    if category == 0x50 then 1
    else if (category == 0x90 || category == 0xD0) && current != 0 then current + 1
    else current
  }

  /** The angle counter after a cell: the last cell of an angle block (0xD0) resets it. */
  function AfterCell(category: int, current: int): int
  {
    if category == 0xD0 then 0 else NextAngle(category, current)
  }

  /** The angle counter before cell `i`. */
  function AngleBefore(categories: seq<byte>, i: nat): int
    requires i <= |categories|
    decreases i
  {
    if i == 0 then 0 else AfterCell(Category(categories[i - 1]), AngleBefore(categories, i - 1))
  }

  /** The angle id of cell `i`: 0 (common to all angles) for category 0. */
  function AngleId(categories: seq<byte>, i: nat): int
    requires i < |categories|
  {
    var category := Category(categories[i]);
    if category == 0 then 0 else NextAngle(category, AngleBefore(categories, i))
  }

  /** loadIfo's cell loop: assigns the angle id of each cell from its category. */
  method AssignAngles(categories: seq<byte>) returns (angleIds: seq<int>)
    ensures |angleIds| == |categories|
    ensures forall i :: 0 <= i < |categories| ==> angleIds[i] == AngleId(categories, i)
  {
    angleIds := [];
    var currentAngle := 0;
    var cellIndex := 0;
    while cellIndex < |categories|
      invariant 0 <= cellIndex <= |categories| && |angleIds| == cellIndex
      invariant currentAngle == AngleBefore(categories, cellIndex)
      invariant forall i :: 0 <= i < cellIndex ==> angleIds[i] == AngleId(categories, i)
    {
      var category := Category(categories[cellIndex]);
      if category == 0x50 {
        currentAngle := 1;
      } else if (category == 0x90 || category == 0xD0) && currentAngle != 0 {
        currentAngle := currentAngle + 1;
      }
      angleIds := angleIds + [if category == 0 then 0 else currentAngle];
      if category == 0xD0 {
        currentAngle := 0;
      }
      cellIndex := cellIndex + 1;
    }
  }

  /** The angle counter never goes below 0 nor above the number of cells seen. */
  lemma {:induction false} AngleBeforeBounds(categories: seq<byte>, i: nat)
    requires i <= |categories|
    ensures 0 <= AngleBefore(categories, i) <= i
  {
    if i > 0 {
      AngleBeforeBounds(categories, i - 1);
    }
  }

  /** Common cells (category 0) get angle 0; every angle id lies in 0..i+1. */
  lemma AngleIdBounds(categories: seq<byte>, i: nat)
    requires i < |categories|
    ensures Category(categories[i]) == 0 ==> AngleId(categories, i) == 0
    ensures 0 <= AngleId(categories, i) <= i + 1
  {
    AngleBeforeBounds(categories, i);
  }

  /**
   * An angle block: a first-angle cell (0x5-), then middle-angle cells
   * (0x9-), then a last-angle cell (0xD-), `k` cells from `start`.
   */
  predicate AngleBlock(categories: seq<byte>, start: nat, k: nat)
  {
    k >= 2 && start + k <= |categories|
    && Category(categories[start]) == 0x50
    && (forall i :: start < i < start + k - 1 ==> Category(categories[i]) == 0x90)
    && Category(categories[start + k - 1]) == 0xD0
  }

  /** Inside an angle block, the cell at `i` carries angle i-start+1. */
  lemma {:induction false} AngleBlockCounts(categories: seq<byte>, start: nat, k: nat, i: nat)
    requires AngleBlock(categories, start, k) && start <= i < start + k
    ensures AngleId(categories, i) == i - start + 1
    ensures AngleBefore(categories, i + 1) == if i < start + k - 1 then i - start + 1 else 0
  {
    var category := Category(categories[i]);
    if i > start {
      AngleBlockCounts(categories, start, k, i - 1);
      assert AngleBefore(categories, i) == i - start;
      assert category == 0x90 || category == 0xD0;
    } else {
      assert category == 0x50;
    }
    assert AngleBefore(categories, i + 1) == AfterCell(category, AngleBefore(categories, i));
  }

  /** The angles of a block are 1..k, and the counter is 0 again after it. */
  lemma AngleBlockIds(categories: seq<byte>, start: nat, k: nat)
    requires AngleBlock(categories, start, k)
    ensures forall i :: start <= i < start + k ==> AngleId(categories, i) == i - start + 1
    ensures AngleBefore(categories, start + k) == 0
  {
    forall i | start <= i < start + k
      ensures AngleId(categories, i) == i - start + 1
    {
      AngleBlockCounts(categories, start, k, i);
    }
    AngleBlockCounts(categories, start, k, start + k - 1);
  }

  // ---------------------------------------------------------------------
  // Cells demultiplexed for one angle
  // ---------------------------------------------------------------------

  /** A cell of a program chain as the tool lists it. */
  datatype DumpCell = DumpCell(cellId: int, angleId: int, sectors: seq<Span>)

  predicate ForAngle(cell: DumpCell, angle: int)
  {
    cell.angleId == 0 || cell.angleId == angle
  }

  /** The cells that belong to `angle`, in program chain order. */
  function CellsForAngle(cells: seq<DumpCell>, angle: int): (r: seq<DumpCell>)
    ensures |r| <= |cells|
    decreases |cells|
  {
    if |cells| == 0 then []
    else if ForAngle(cells[|cells| - 1], angle) then CellsForAngle(cells[..|cells| - 1], angle) + [cells[|cells| - 1]]
    else CellsForAngle(cells[..|cells| - 1], angle)
  }

  /** A cell is kept for `angle` exactly when it is in the chain and is common or of that angle. */
  lemma {:induction false} CellsForAngleMembers(cells: seq<DumpCell>, angle: int, c: DumpCell)
    ensures c in CellsForAngle(cells, angle) <==> c in cells && ForAngle(c, angle)
    decreases |cells|
  {
    if |cells| > 0 {
      var front := cells[..|cells| - 1];
      CellsForAngleMembers(front, angle, c);
      assert cells == front + [cells[|cells| - 1]];
    }
  }

  /**
   * Filtering distributes over concatenation, so the cells kept for `angle`
   * appear in the same order as in the program chain.
   */
  lemma {:induction false} CellsForAngleAppend(a: seq<DumpCell>, b: seq<DumpCell>, angle: int)
    ensures CellsForAngle(a + b, angle) == CellsForAngle(a, angle) + CellsForAngle(b, angle)
    decreases |b|
  {
    if |b| == 0 {
      assert a + b == a;
    } else {
      var b' := b[..|b| - 1];
      var x := b[|b| - 1];
      CellsForAngleAppend(a, b', angle);
      assert (a + b)[..|a + b| - 1] == a + b';
      assert (a + b)[|a + b| - 1] == x;
    }
  }

  /**
   * demuxPgc: the PGC number must be in 1..pgcCount and the angle at least
   * 1; the cells of another angle are skipped. The sectors of the kept
   * cells are then read and written, which is I/O.
   */
  method DemuxCells(pgcs: seq<seq<DumpCell>>, pgcNumber: int, angleNumber: int) returns (result: Option<seq<DumpCell>>)
    ensures result.None? <==> pgcNumber < 1 || pgcNumber > |pgcs| || angleNumber < 1
    ensures result.Some? ==> result.value == CellsForAngle(pgcs[pgcNumber - 1], angleNumber)
  {
    if pgcNumber < 1 || pgcNumber > |pgcs| {
      return None;
    }
    if angleNumber < 1 {
      return None;
    }
    var cells := pgcs[pgcNumber - 1];
    var kept := [];
    var i := 0;
    while i < |cells|
      invariant 0 <= i <= |cells|
      invariant kept == CellsForAngle(cells[..i], angleNumber)
    {
      assert cells[..i + 1][..i] == cells[..i];
      if cells[i].angleId != 0 && cells[i].angleId != angleNumber {
        // Skipping cell.
      } else {
        kept := kept + [cells[i]];
      }
      i := i + 1;
    }
    assert cells[..i] == cells;
    return Some(kept);
  }

  // ---------------------------------------------------------------------
  // Sector reader
  // ---------------------------------------------------------------------

  /** A VOB file: the sectors it holds on the DVD and its content. */
  datatype VobFile = VobFile(sectors: Span, content: seq<byte>)

  /** The first VOB file holding `sector`, if any. */
  function FindVob(vobs: seq<VobFile>, sector: int): (r: Option<nat>)
    ensures r.Some? ==> (r.value < |vobs| && Contains(vobs[r.value].sectors, sector)
      && forall k :: 0 <= k < r.value ==> !Contains(vobs[k].sectors, sector))
    ensures r.None? ==> forall k :: 0 <= k < |vobs| ==> !Contains(vobs[k].sectors, sector)
    decreases |vobs|
  {
    if |vobs| == 0 then None
    else if Contains(vobs[0].sectors, sector) then Some(0)
    else match FindVob(vobs[1..], sector)
      case None => None
      case Some(k) => Some(k + 1)
  }

  /** The 2048 bytes of `sector` in `vob`, none when the file is too short. */
  function SectorData(vob: VobFile, sector: int): (r: Option<seq<byte>>)
    ensures r.Some? ==> |r.value| == DvdSectorSize
  {
    var offset := (sector - vob.sectors.first) * DvdSectorSize;
    if 0 <= offset && offset + DvdSectorSize <= |vob.content| then Some(vob.content[offset..offset + DvdSectorSize]) else None
  }

  class SectorReader {
    const vobs: seq<VobFile>
    var currentVob: Option<nat>
    var nextSector: int

    /** The reader after resetRead(). */
    constructor (vobs': seq<VobFile>)
      ensures vobs == vobs' && currentVob == None && nextSector == -1
    {
      vobs := vobs';
      currentVob := None;
      nextSector := -1;
    }

    predicate Valid()
      reads this
    {
      (currentVob.Some? ==> currentVob.value < |vobs|) && forall k :: 0 <= k < |vobs| ==> ValidSpan(vobs[k].sectors)
    }

    /**
     * readSector: the content of one DVD sector, read from the first VOB
     * file that holds it. A negative sector, or one that no VOB file holds,
     * fails. The file is opened, positioned and read through the file
     * system, represented here by each file's content.
     */
    method ReadSector(sector: int) returns (buffer: Option<seq<byte>>)
      requires Valid()
      modifies this
      ensures Valid() && nextSector == old(nextSector)
      ensures sector < 0 ==> buffer.None?
      ensures buffer.Some? ==> sector >= 0 && currentVob.Some? && buffer == SectorData(vobs[currentVob.value], sector)
      ensures sector >= 0 && sector != nextSector ==>
        (currentVob == FindVob(vobs, sector)
         && buffer == (if currentVob.Some? then SectorData(vobs[currentVob.value], sector) else None))
    {
      if sector < 0 {
        return None;
      }
      if sector != nextSector || currentVob.None? || sector > Last(vobs[currentVob.value].sectors) {
        currentVob := None;
        var k := 0;
        while k < |vobs|
          invariant 0 <= k <= |vobs| && currentVob == None
          invariant forall j :: 0 <= j < k ==> !Contains(vobs[j].sectors, sector)
        {
          if Contains(vobs[k].sectors, sector) {
            currentVob := Some(k);
            break;
          }
          k := k + 1;
        }
        if currentVob.None? {
          return None;
        }
      }
      buffer := SectorData(vobs[currentVob.value], sector);
    }
  }

  // ---------------------------------------------------------------------
  // Playback time
  // ---------------------------------------------------------------------

  /** playbackSeconds: the BCD time hh:mm:ss:ff as a number of seconds, frames ignored. */
  function PlaybackSeconds(value: nat): (r: int)
    ensures r == PlaybackDuration(value)
    ensures 0 <= r
  {
    var hours := ((value / 0x1000_0000) % 16) * 10 + (value / 0x100_0000) % 16;
    var minutes := ((value / 0x10_0000) % 16) * 10 + (value / 0x1_0000) % 16;
    var seconds := ((value / 0x1000) % 16) * 10 + (value / 0x100) % 16;
    hours * 3600 + minutes * 60 + seconds
  }

  /** A duration field holding hh, mm, ss in BCD decodes to 3600 hh + 60 mm + ss seconds. */
  lemma PlaybackSecondsOfBcd(h: int, m: int, sec: int, frames: byte)
    requires 0 <= h < 100 && 0 <= m < 100 && 0 <= sec < 100
    ensures PlaybackSeconds(BE32([ToBcd(h), ToBcd(m), ToBcd(sec), frames], 0)) == 3600 * h + 60 * m + sec
  {
    PlaybackDurationRoundTrip(h, m, sec, frames);
  }
}
