/**
 * QtlDvdProgramChain: one Program Chain (PGC) of a DVD video title set, read
 * from the VTS IFO file. A PGC lists its programs; each program names a cell,
 * and each cell gives the first and last sector of its video content.
 */
module DvdProgramChain {
  import opened Bytes
  import opened QtlRange

  /** Minimum size of a PGC entry in the IFO. */
  const PgcHeaderSize: int := 0xEC
  /** Size of one entry of the cell playback information table. */
  const CellPlayEntrySize: int := 0x18
  /** Size of the palette: 16 entries of 4 bytes. */
  const PaletteSize: int := 64

  datatype ProgramChain = ProgramChain(
    valid: bool,
    titleNumber: int,
    duration: int,
    programCount: int,
    cellCount: int,
    nextPgc: int,
    previousPgc: int,
    parentPgc: int,
    palette: seq<byte>,
    sectors: seq<Span>)

  // ---------------------------------------------------------------------
  // Sector lists
  // ---------------------------------------------------------------------

  /** The values of a range, in increasing order. */
  function SpanValues(s: Span): seq<int>
  {
    seq(if s.count < 0 then 0 else s.count, k => s.first + k)
  }

  /** The values of a list of ranges, range after range. */
  function Values(l: seq<Span>): seq<int>
  {
    if l == [] then [] else Values(l[..|l| - 1]) + SpanValues(l[|l| - 1])
  }

  predicate NonNegativeCounts(l: seq<Span>)
  {
    forall k :: 0 <= k < |l| ==> l[k].count >= 0
  }

  /**
   * The merge of a range list with adjacent ranges only: walking the list in
   * order, a range that starts right after the end of the previous (merged)
   * range is joined to it; nothing is reordered.
   */
  function MergeAdjacent(l: seq<Span>): seq<Span>
  {
    if |l| <= 1 then l
    else
      var m := MergeAdjacent(l[..|l| - 1]);
      var x := l[|l| - 1];
      if |m| > 0 && x.first == End(m[|m| - 1]) then
        m[..|m| - 1] + [Span(m[|m| - 1].first, m[|m| - 1].count + x.count)]
      else
        m + [x]
  }

  lemma ValuesAppend(a: seq<Span>, s: Span)
    ensures Values(a + [s]) == Values(a) + SpanValues(s)
  {
    assert (a + [s])[..|a|] == a;
  }

  lemma SpanValuesJoin(a: Span, b: Span)
    requires a.count >= 0 && b.count >= 0 && b.first == End(a)
    ensures SpanValues(Span(a.first, a.count + b.count)) == SpanValues(a) + SpanValues(b)
  {
  }

  /** The last range of a merge: the last input range, possibly grown at its front. */
  lemma {:induction false} MergeAdjacentShape(l: seq<Span>)
    requires |l| > 0
    ensures var r := MergeAdjacent(l); 0 < |r| <= |l| && End(r[|r| - 1]) == End(l[|l| - 1])
  {
    if |l| > 1 {
      MergeAdjacentShape(l[..|l| - 1]);
    }
  }

  /** Joining `x` to the range `y` that ends a list keeps the values of the list followed by `x`. */
  lemma MergeStepValues(front: seq<Span>, y: Span, x: Span)
    requires y.count >= 0 && x.count >= 0 && x.first == End(y)
    ensures Values(front + [Span(y.first, y.count + x.count)]) == Values(front + [y]) + SpanValues(x)
  {
    ValuesAppend(front, Span(y.first, y.count + x.count));
    SpanValuesJoin(y, x);
    ValuesAppend(front, y);
    assert Values(front) + (SpanValues(y) + SpanValues(x)) == (Values(front) + SpanValues(y)) + SpanValues(x);
  }

  /** Merging keeps the counts of the ranges non-negative. */
  lemma {:induction false} MergeAdjacentCounts(l: seq<Span>)
    requires NonNegativeCounts(l)
    ensures NonNegativeCounts(MergeAdjacent(l))
  {
    if |l| > 1 {
      MergeAdjacentCounts(l[..|l| - 1]);
    }
  }

  /** Merging adjacent ranges keeps every value, in the same order. */
  lemma {:induction false} MergeAdjacentKeepsValues(l: seq<Span>)
    requires NonNegativeCounts(l)
    ensures Values(MergeAdjacent(l)) == Values(l)
  {
    if |l| > 1 {
      var init := l[..|l| - 1];
      var x := l[|l| - 1];
      assert Values(l) == Values(init) + SpanValues(x);
      MergeAdjacentKeepsValues(init);
      MergeAdjacentCounts(init);
      var m := MergeAdjacent(init);
      if |m| > 0 && x.first == End(m[|m| - 1]) {
        var front, y := m[..|m| - 1], m[|m| - 1];
        assert MergeAdjacent(l) == front + [Span(y.first, y.count + x.count)];
        assert m == front + [y];
        MergeStepValues(front, y, x);
      } else {
        assert MergeAdjacent(l) == m + [x];
        ValuesAppend(m, x);
      }
    }
  }

  /** After merging, no range starts where the previous one ends. */
  lemma {:induction false} MergeAdjacentMaximal(l: seq<Span>)
    ensures var r := MergeAdjacent(l);
      forall k :: 0 <= k < |r| - 1 ==> r[k + 1].first != End(r[k])
  {
    if |l| > 1 {
      var init := l[..|l| - 1];
      MergeAdjacentMaximal(init);
      MergeAdjacentShape(init);
    }
  }

  // ---------------------------------------------------------------------
  // The PGC entry in the IFO
  // ---------------------------------------------------------------------

  /** Offset in the IFO of the program map (one cell number per program). */
  function ProgramMap(ifo: seq<byte>, start: int): int
  {
    start + BE16(ifo, start + 0xE6)
  }

  /** Offset in the IFO of the cell playback information table. */
  function CellPlay(ifo: seq<byte>, start: int): int
  {
    start + BE16(ifo, start + 0xE8)
  }

  /** The cell number of program `p` (programs and cells count from 1 in the IFO). */
  function ProgramCell(ifo: seq<byte>, start: int, p: int): byte
  {
    At(ifo, ProgramMap(ifo, start) + p)
  }

  /** First sector of a cell, read as a 32-bit field into an `int`. */
  function CellFirstSector(ifo: seq<byte>, start: int, cell: int): int
  {
    I32(BE32(ifo, CellPlay(ifo, start) + CellPlayEntrySize * (cell - 1) + 0x08))
  }

  /** Last sector of a cell. */
  function CellLastSector(ifo: seq<byte>, start: int, cell: int): int
  {
    I32(BE32(ifo, CellPlay(ifo, start) + CellPlayEntrySize * (cell - 1) + 0x14))
  }

  /** The sector range of the cell that program `p` plays. */
  function ProgramSpan(ifo: seq<byte>, start: int, p: int): Span
  {
    var cell := ProgramCell(ifo, start, p);
    var first := CellFirstSector(ifo, start, cell);
    Span(first, CellLastSector(ifo, start, cell) - first + 1)
  }

  /** Program `p` names an existing cell whose sector range is well formed. */
  predicate ProgramOk(ifo: seq<byte>, start: int, p: int)
  {
    var cell := ProgramCell(ifo, start, p);
    1 <= cell <= At(ifo, start + 3)
    && 0 <= CellFirstSector(ifo, start, cell) <= CellLastSector(ifo, start, cell)
  }

  /** The program map and the cell table both lie inside the IFO. */
  predicate TablesFit(ifo: seq<byte>, start: int)
  {
    ProgramMap(ifo, start) + At(ifo, start + 2) <= |ifo|
    && CellPlay(ifo, start) + CellPlayEntrySize * At(ifo, start + 3) <= |ifo|
  }

  /** The PGC at `start` is valid. */
  predicate PgcValid(ifo: seq<byte>, start: int)
  {
    0 <= start && start + PgcHeaderSize <= |ifo|
    && TablesFit(ifo, start)
    && forall p :: 0 <= p < At(ifo, start + 2) ==> ProgramOk(ifo, start, p)
  }

  /** The chain the parser builds from a valid PGC at `start`. */
  function ValidChain(ifo: seq<byte>, start: int, titleNumber: int): ProgramChain
    requires PgcValid(ifo, start)
  {
    ProgramChain(true, titleNumber, PlaybackDuration(BE32(ifo, start + 4)), ifo[start + 2], ifo[start + 3],
      BE16(ifo, start + 0x9C), BE16(ifo, start + 0x9E), BE16(ifo, start + 0xA0),
      ifo[start + 0xA4..start + 0xA4 + PaletteSize],
      MergeAdjacent(seq(At(ifo, start + 2), p => ProgramSpan(ifo, start, p))))
  }

  /**
   * The QtlDvdProgramChain constructor: parse the PGC entry that starts at
   * `start` in the IFO. The sectors are the cell ranges in program order,
   * with adjacent ranges merged.
   */
  method ParseProgramChain(ifo: seq<byte>, start: int, titleNumber: int) returns (pgc: ProgramChain)
    ensures pgc.titleNumber == titleNumber
    ensures pgc.valid <==> PgcValid(ifo, start)
    ensures pgc.valid ==> pgc == ValidChain(ifo, start, titleNumber)
    ensures pgc.valid ==> pgc.sectors == MergeAdjacent(seq(At(ifo, start + 2), p => ProgramSpan(ifo, start, p)))
    ensures 0 <= start && start + PgcHeaderSize <= |ifo| ==>
      pgc.programCount == ifo[start + 2] && pgc.cellCount == ifo[start + 3]
      && pgc.duration == PlaybackDuration(BE32(ifo, start + 4))
      && pgc.nextPgc == BE16(ifo, start + 0x9C) && pgc.previousPgc == BE16(ifo, start + 0x9E)
      && pgc.parentPgc == BE16(ifo, start + 0xA0)
      && pgc.palette == ifo[start + 0xA4..start + 0xA4 + PaletteSize]
  {
    pgc := ProgramChain(false, titleNumber, 0, 0, 0, 0, 0, 0, [], []);
    if start < 0 || start + PgcHeaderSize > |ifo| {
      return;
    }
    var programCount := ifo[start + 2];
    var cellCount := ifo[start + 3];
    pgc := pgc.(programCount := programCount, cellCount := cellCount,
                duration := PlaybackDuration(BE32(ifo, start + 4)),
                nextPgc := BE16(ifo, start + 0x9C), previousPgc := BE16(ifo, start + 0x9E),
                parentPgc := BE16(ifo, start + 0xA0),
                palette := ifo[start + 0xA4..start + 0xA4 + PaletteSize]);

    var programMap := start + BE16(ifo, start + 0xE6);
    if programMap + programCount > |ifo| {
      return;
    }
    var cellPlay := start + BE16(ifo, start + 0xE8);
    if cellPlay + CellPlayEntrySize * cellCount > |ifo| {
      return;
    }

    var ok, sectors := ReadProgramSpans(ifo, start);
    if ok {
      pgc := pgc.(valid := true, sectors := MergeAdjacent(sectors));
    } else {
      pgc := pgc.(sectors := sectors);
    }
  }

  /**
   * The loop over the programs of a PGC whose tables fit: the sector range
   * of each program's cell, in program order, until a program names a
   * missing cell or an ill-formed range.
   */
  method ReadProgramSpans(ifo: seq<byte>, start: int) returns (ok: bool, sectors: seq<Span>)
    requires 0 <= start && start + PgcHeaderSize <= |ifo| && TablesFit(ifo, start)
    ensures ok <==> forall p :: 0 <= p < ifo[start + 2] ==> ProgramOk(ifo, start, p)
    ensures ok ==> sectors == seq(ifo[start + 2], p => ProgramSpan(ifo, start, p))
  {
    var programCount := ifo[start + 2];
    var cellCount := ifo[start + 3];
    var programMap := start + BE16(ifo, start + 0xE6);
    var cellPlay := start + BE16(ifo, start + 0xE8);
    sectors := [];
    var prog := 0;
    while prog < programCount
      invariant 0 <= prog <= programCount
      invariant sectors == seq(prog, p => ProgramSpan(ifo, start, p))
      invariant forall p :: 0 <= p < prog ==> ProgramOk(ifo, start, p)
    {
      var cellId := ifo[programMap + prog];
      if cellId < 1 || cellId > cellCount {
        assert !ProgramOk(ifo, start, prog);
        return false, sectors;
      }
      var cellIndex := cellPlay + CellPlayEntrySize * (cellId - 1);
      var firstSector := I32(BE32(ifo, cellIndex + 0x08));
      var lastSector := I32(BE32(ifo, cellIndex + 0x14));
      if firstSector < 0 || lastSector < firstSector {
        assert !ProgramOk(ifo, start, prog);
        return false, sectors;
      }
      sectors := sectors + [Span(firstSector, lastSector - firstSector + 1)];
      prog := prog + 1;
    }
    ok := true;
  }

  /**
   * The sectors of a valid PGC are exactly the sectors of its programs'
   * cells, in program order.
   */
  lemma {:induction false} ValidPgcSectors(ifo: seq<byte>, start: int, pgc: ProgramChain)
    requires PgcValid(ifo, start)
    requires pgc.sectors == MergeAdjacent(seq(At(ifo, start + 2), p => ProgramSpan(ifo, start, p)))
    ensures Values(pgc.sectors) == Values(seq(At(ifo, start + 2), p => ProgramSpan(ifo, start, p)))
    ensures forall k :: 0 <= k < |pgc.sectors| ==> pgc.sectors[k].first >= 0 && pgc.sectors[k].count > 0
    ensures forall k :: 0 <= k < |pgc.sectors| - 1 ==> pgc.sectors[k + 1].first != End(pgc.sectors[k])
  {
    var raw := seq(At(ifo, start + 2), p => ProgramSpan(ifo, start, p));
    assert forall p :: 0 <= p < |raw| ==> raw[p].first >= 0 && raw[p].count > 0 by {
      forall p | 0 <= p < |raw| ensures raw[p].first >= 0 && raw[p].count > 0 {
        assert ProgramOk(ifo, start, p);
      }
    }
    MergeAdjacentKeepsValues(raw);
    MergeAdjacentPositive(raw);
    MergeAdjacentMaximal(raw);
  }

  /** Merging ranges that all start at or after 0 and are not empty keeps them so. */
  lemma {:induction false} MergeAdjacentPositive(l: seq<Span>)
    requires forall k :: 0 <= k < |l| ==> l[k].first >= 0 && l[k].count > 0
    ensures forall k :: 0 <= k < |MergeAdjacent(l)| ==> MergeAdjacent(l)[k].first >= 0 && MergeAdjacent(l)[k].count > 0
  {
    if |l| > 1 {
      MergeAdjacentPositive(l[..|l| - 1]);
    }
  }

  // ---------------------------------------------------------------------
  // Durations
  // ---------------------------------------------------------------------

  /** A BCD byte as a two-digit decimal number (high nibble: tens). */
  function Bcd(b: byte): int
  {
    (b / 16) * 10 + b % 16
  }

  /**
   * toPlaybackDuration: the 32-bit BCD time hh:mm:ss:ff as a number of
   * seconds; the frame field is ignored.
   */
  function PlaybackDuration(value: nat): int
  {
    var hours := ((value / 0x1000_0000) % 16) * 10 + (value / 0x100_0000) % 16;
    var minutes := ((value / 0x10_0000) % 16) * 10 + (value / 0x1_0000) % 16;
    var seconds := ((value / 0x1000) % 16) * 10 + (value / 0x100) % 16;
    hours * 3600 + minutes * 60 + seconds
  }

  /** The nibbles of a 32-bit value made of the bytes a b c d. */
  lemma Nibbles(v: int, a: byte, b: byte, c: byte, d: byte)
    requires v == a * 0x100_0000 + b * 0x1_0000 + c * 0x100 + d
    ensures (v / 0x1000_0000) % 16 == a / 16 && (v / 0x100_0000) % 16 == a % 16
    ensures (v / 0x10_0000) % 16 == b / 16 && (v / 0x1_0000) % 16 == b % 16
    ensures (v / 0x1000) % 16 == c / 16 && (v / 0x100) % 16 == c % 16
  {
    DivUnique(v, a / 16, (a % 16) * 0x100_0000 + b * 0x1_0000 + c * 0x100 + d, 0x1000_0000);
    DivUnique(a / 16, 0, a / 16, 16);
    DivUnique(v, a, b * 0x1_0000 + c * 0x100 + d, 0x100_0000);
    DivUnique(v, a * 16 + b / 16, (b % 16) * 0x1_0000 + c * 0x100 + d, 0x10_0000);
    DivUnique(a * 16 + b / 16, a, b / 16, 16);
    DivUnique(v, a * 0x100 + b, c * 0x100 + d, 0x1_0000);
    DivUnique(a * 0x100 + b, a * 16 + b / 16, b % 16, 16);
    DivUnique(v, a * 0x1000 + b * 16 + c / 16, (c % 16) * 0x100 + d, 0x1000);
    DivUnique(a * 0x1000 + b * 16 + c / 16, a * 0x100 + b, c / 16, 16);
    DivUnique(v, a * 0x1_0000 + b * 0x100 + c, d, 0x100);
    DivUnique(a * 0x1_0000 + b * 0x100 + c, a * 0x1000 + b * 16 + c / 16, c % 16, 16);
  }

  /** The four bytes of the duration field are hours, minutes, seconds and frames in BCD. */
  lemma PlaybackDurationOfBytes(s: seq<byte>, i: int)
    requires 0 <= i && i + 4 <= |s|
    ensures PlaybackDuration(BE32(s, i)) == 3600 * Bcd(s[i]) + 60 * Bcd(s[i + 1]) + Bcd(s[i + 2])
  {
    Nibbles(BE32(s, i), s[i], s[i + 1], s[i + 2], s[i + 3]);
  }

  /** A BCD byte holding a two-digit number. */
  function ToBcd(n: int): (r: byte)
    requires 0 <= n < 100
    ensures Bcd(r) == n
  {
    (n / 10) * 16 + n % 10
  }

  /**
   * Encoding hh:mm:ss (each below 100) in BCD and decoding the field gives
   * back the time in seconds, whatever the frame byte.
   */
  lemma PlaybackDurationRoundTrip(h: int, m: int, sec: int, frames: byte)
    requires 0 <= h < 100 && 0 <= m < 100 && 0 <= sec < 100
    ensures PlaybackDuration(BE32([ToBcd(h), ToBcd(m), ToBcd(sec), frames], 0)) == 3600 * h + 60 * m + sec
  {
    PlaybackDurationOfBytes([ToBcd(h), ToBcd(m), ToBcd(sec), frames], 0);
  }

  // ---------------------------------------------------------------------
  // Palette
  // ---------------------------------------------------------------------

  /** qBound(0, x, 255). */
  function Clamp(x: int): byte
  {
    if x < 0 then 0 else if x > 255 then 255 else x
  }

  /** Red from the luma and red chroma bytes; shifts of negative values are floor divisions. */
  function Red(y: byte, crByte: byte): byte
  {
    var cr := crByte as int - 128;
    Clamp(y + cr + cr / 4 + cr / 8 + cr / 32)
  }

  function Green(y: byte, crByte: byte, cbByte: byte): byte
  {
    var cr := crByte as int - 128;
    var cb := cbByte as int - 128;
    Clamp(y - (cb / 4 + cb / 16 + cb / 32) - (cr / 2 + cr / 8 + cr / 16 + cr / 32))
  }

  function Blue(y: byte, cbByte: byte): byte
  {
    var cb := cbByte as int - 128;
    Clamp(y + cb + cb / 2 + cb / 4 + cb / 64)
  }

  /**
   * Byte `i` of palette `s` after conversion: in each complete entry
   * (0, Y, Cr, Cb) the last three bytes become R, G and B; the first byte of
   * an entry and a trailing partial entry are kept.
   */
  function ConvertedByte(s: seq<byte>, i: int): byte
    requires 0 <= i < |s|
  {
    var base := i - i % 4;
    if base + 4 > |s| || i % 4 == 0 then s[i]
    else if i % 4 == 1 then Red(s[base + 1], s[base + 2])
    else if i % 4 == 2 then Green(s[base + 1], s[base + 2], s[base + 3])
    else Blue(s[base + 1], s[base + 3])
  }

  /** The converted bytes of complete entry `q`, which starts at byte 4q. */
  lemma EntryValues(s: seq<byte>, q: nat)
    requires 4 * q + 4 <= |s|
    ensures ConvertedByte(s, 4 * q) == s[4 * q]
    ensures ConvertedByte(s, 4 * q + 1) == Red(s[4 * q + 1], s[4 * q + 2])
    ensures ConvertedByte(s, 4 * q + 2) == Green(s[4 * q + 1], s[4 * q + 2], s[4 * q + 3])
    ensures ConvertedByte(s, 4 * q + 3) == Blue(s[4 * q + 1], s[4 * q + 3])
  {
    EntryFirst(s, q);
    EntryRed(s, q);
    EntryGreen(s, q);
    EntryBlue(s, q);
  }

  lemma EntryFirst(s: seq<byte>, q: nat)
    requires 4 * q + 4 <= |s|
    ensures ConvertedByte(s, 4 * q) == s[4 * q]
  {
    EntryIndex(q, 0);
  }

  lemma EntryRed(s: seq<byte>, q: nat)
    requires 4 * q + 4 <= |s|
    ensures ConvertedByte(s, 4 * q + 1) == Red(s[4 * q + 1], s[4 * q + 2])
  {
    EntryIndex(q, 1);
  }

  lemma EntryGreen(s: seq<byte>, q: nat)
    requires 4 * q + 4 <= |s|
    ensures ConvertedByte(s, 4 * q + 2) == Green(s[4 * q + 1], s[4 * q + 2], s[4 * q + 3])
  {
    EntryIndex(q, 2);
  }

  lemma EntryBlue(s: seq<byte>, q: nat)
    requires 4 * q + 4 <= |s|
    ensures ConvertedByte(s, 4 * q + 3) == Blue(s[4 * q + 1], s[4 * q + 3])
  {
    EntryIndex(q, 3);
  }

  /** Byte k of entry q. */
  lemma EntryIndex(q: nat, k: int)
    requires 0 <= k < 4
    ensures (4 * q + k) % 4 == k && (4 * q + k) - (4 * q + k) % 4 == 4 * q
  {
  }

  /** The bytes of a trailing partial entry, from byte 4q on, are kept. */
  lemma TailValues(s: seq<byte>, q: nat)
    requires 4 * q <= |s| < 4 * q + 4
    ensures forall i :: 4 * q <= i < |s| ==> ConvertedByte(s, i) == s[i]
  {
    forall i | 4 * q <= i < |s|
      ensures ConvertedByte(s, i) == s[i]
    {
      EntryIndex(q, i - 4 * q);
    }
  }

  /** convertPaletteYuvToRgb: the palette converted in place, entry by entry. */
  method ConvertPaletteYuvToRgb(palette: array<byte>)
    modifies palette
    ensures forall i :: 0 <= i < palette.Length ==> palette[i] == ConvertedByte(old(palette[..]), i)
  {
    ghost var original := palette[..];
    var base := 0;
    ghost var q: nat := 0;
    while base + 4 <= palette.Length
      invariant base == 4 * q && base <= palette.Length
      invariant forall i :: base <= i < palette.Length ==> palette[i] == original[i]
      invariant forall i :: 0 <= i < base ==> palette[i] == ConvertedByte(original, i)
    {
      ConvertEntry(palette, base);
      EntryValues(original, q);
      forall i | 0 <= i < base + 4
        ensures palette[i] == ConvertedByte(original, i)
      {
        if base < i {
          assert i == 4 * q + 1 || i == 4 * q + 2 || i == 4 * q + 3;
        }
      }
      base := base + 4;
      q := q + 1;
    }
    TailValues(original, q);
  }

  /** One entry (0, Y, Cr, Cb) at `base` becomes (0, R, G, B); nothing else changes. */
  method ConvertEntry(palette: array<byte>, base: int)
    requires 0 <= base && base + 4 <= palette.Length
    modifies palette
    ensures palette[base + 1] == Red(old(palette[base + 1]), old(palette[base + 2]))
    ensures palette[base + 2] == Green(old(palette[base + 1]), old(palette[base + 2]), old(palette[base + 3]))
    ensures palette[base + 3] == Blue(old(palette[base + 1]), old(palette[base + 3]))
    ensures forall i :: 0 <= i < palette.Length && (i <= base || i >= base + 4) ==> palette[i] == old(palette[i])
  {
    var y := palette[base + 1];
    var cr := palette[base + 2];
    var cb := palette[base + 3];
    palette[base + 1] := Red(y, cr);
    palette[base + 2] := Green(y, cr, cb);
    palette[base + 3] := Blue(y, cb);
  }

  /** A grey entry (both chroma bytes at 128) keeps its luma on all three colours. */
  lemma GreyStaysGrey(y: byte)
    ensures Red(y, 128) == y && Green(y, 128, 128) == y && Blue(y, 128) == y
  {
  }

  /** The largest chroma values saturate the colours they drive. */
  lemma FullChromaSaturates(y: byte)
    requires y >= 79
    ensures Red(y, 255) == 255 && Blue(y, 255) == 255 && Green(y, 255, 255) < y
  {
  }

  /** One lower-case hexadecimal digit. */
  function HexDigit(n: int): char
    requires 0 <= n < 16
  {
    if n < 10 then ('0' as int + n) as char else ('a' as int + n - 10) as char
  }

  /** Two lower-case hexadecimal digits, zero-padded (arg(x, 2, 16, '0')). */
  function Hex2(b: byte): string
  {
    [HexDigit(b / 16), HexDigit(b % 16)]
  }

  /** The value of a lower-case hexadecimal digit, -1 for any other character. */
  function HexValue(c: char): int
  {
    if '0' <= c <= '9' then c as int - '0' as int
    else if 'a' <= c <= 'f' then c as int - 'a' as int + 10
    else -1
  }

  /** The two digits of Hex2 read back as the byte. */
  lemma Hex2Decodes(b: byte)
    ensures |Hex2(b)| == 2 && HexValue(Hex2(b)[0]) * 16 + HexValue(Hex2(b)[1]) == b
  {
    assert HexValue(HexDigit(b / 16)) == b / 16;
    assert HexValue(HexDigit(b % 16)) == b % 16;
  }

  /** The text "rrggbb" of palette entry `e`. */
  function EntryText(palette: seq<byte>, e: int): string
    requires 0 <= e && 4 * e + 4 <= |palette|
  {
    Hex2(palette[4 * e + 1]) + Hex2(palette[4 * e + 2]) + Hex2(palette[4 * e + 3])
  }

  /** The strings of `l` separated by commas. */
  function JoinCommas(l: seq<string>): string
  {
    if |l| == 0 then "" else if |l| == 1 then l[0] else JoinCommas(l[..|l| - 1]) + "," + l[|l| - 1]
  }

  /** The text of the first `n` palette entries. */
  function PaletteText(palette: seq<byte>, n: nat): string
    requires 4 * n <= |palette|
  {
    JoinCommas(seq(n, e requires 0 <= e < n => EntryText(palette, e)))
  }

  /**
   * paletteToString: one "rrggbb" entry per complete 4-byte palette entry,
   * separated by commas.
   */
  method PaletteToString(palette: seq<byte>) returns (result: string)
    ensures result == PaletteText(palette, |palette| / 4)
  {
    result := "";
    var base := 0;
    while base + 4 <= |palette|
      invariant 0 <= base && base % 4 == 0 && base <= |palette| / 4 * 4
      invariant result == PaletteText(palette, base / 4)
    {
      var entries := seq(base / 4 + 1, e requires 0 <= e < base / 4 + 1 => EntryText(palette, e));
      assert entries[..base / 4] == seq(base / 4, e requires 0 <= e < base / 4 => EntryText(palette, e));
      if result != "" {
        result := result + ",";
      } else {
        assert base == 0;
      }
      result := result + EntryText(palette, base / 4);
      base := base + 4;
    }
  }

  /** Entries of six characters joined by commas: entry `e` sits at 7 * e. */
  lemma {:induction false} JoinCommasLayout(l: seq<string>)
    requires forall e :: 0 <= e < |l| ==> |l[e]| == 6
    ensures |l| > 0 ==> |JoinCommas(l)| == 7 * |l| - 1
    ensures |l| == 0 ==> JoinCommas(l) == ""
    ensures forall e :: 0 <= e < |l| ==> JoinCommas(l)[7 * e..7 * e + 6] == l[e]
    ensures forall e :: 0 <= e < |l| - 1 ==> JoinCommas(l)[7 * e + 6] == ','
  {
    if |l| > 1 {
      var init := l[..|l| - 1];
      JoinCommasLayout(init);
      var j := JoinCommas(init);
      assert JoinCommas(l) == j + "," + l[|l| - 1];
      forall e | 0 <= e < |l|
        ensures JoinCommas(l)[7 * e..7 * e + 6] == l[e]
      {
        if e < |l| - 1 {
          assert JoinCommas(l)[7 * e..7 * e + 6] == j[7 * e..7 * e + 6];
        }
      }
    }
  }

  /**
   * The palette text has 7 characters per entry less one, each entry's
   * colours at 7 * e, and commas between the entries.
   */
  lemma PaletteTextLayout(palette: seq<byte>)
    ensures var n := |palette| / 4; var t := PaletteText(palette, n);
      (n == 0 ==> t == "")
      && (n > 0 ==> |t| == 7 * n - 1)
      && (forall e :: 0 <= e < n ==> t[7 * e..7 * e + 6] == EntryText(palette, e))
      && (forall e :: 0 <= e < n - 1 ==> t[7 * e + 6] == ',')
  {
    var n := |palette| / 4;
    var l := seq(n, e requires 0 <= e < n => EntryText(palette, e));
    assert PaletteText(palette, n) == JoinCommas(l);
    assert forall e :: 0 <= e < n ==> l[e] == EntryText(palette, e) && |l[e]| == 6;
    JoinCommasLayout(l);
  }
}
