/**
 * QtsDvdTitleSet: a DVD video title set (VTS), described by its VTS_nn_0.IFO
 * information file: the streams (one video, up to 8 audio, up to 32
 * subpicture), the cell address table and the program chains (titles).
 */
module DvdTitleSet {
  import opened Sequences
  import opened Bytes
  import opened Strings
  import opened QtlRange
  import opened MediaStreamInfo
  import opened DvdProgramChain

  /** Bytes of one DVD sector. */
  const SectorSize: int := 2048

  const IfoHeaderSize: int := 0x3D8
  const VtsPgciOffset: int := 0xCC
  const VtsCadtOffset: int := 0xE0
  const AdtHeaderSize: int := 8
  const AdtEntrySize: int := 12
  const VideoAttrOffset: int := 0x200
  const AudioCountOffset: int := 0x202
  const AudioAttrOffset: int := 0x204
  const AudioAttrSize: int := 8
  const AudioMaxCount: int := 8
  const SubpicCountOffset: int := 0x254
  const SubpicAttrOffset: int := 0x256
  const SubpicAttrSize: int := 6
  const SubpicMaxCount: int := 32

  // ---------------------------------------------------------------------
  // File names
  // ---------------------------------------------------------------------

  /**
   * isDvdTitleSetFileName: an .IFO whose base name ends in "_0", or a .VOB
   * whose base name ends in "_" and a digit (the suffix in any case).
   */
  function IsDvdTitleSetFileName(fileName: string): (r: bool)
    ensures r ==> ToUpper(Suffix(fileName)) in {"IFO", "VOB"}
  {
    var suffix := ToUpper(Suffix(fileName));
    var name := CompleteBaseName(fileName);
    if suffix == "IFO" then EndsWith(name, "_0")
    else if suffix == "VOB" then |name| > 2 && name[|name| - 2] == '_' && IsDigit(name[|name| - 1])
    else false
  }

  /** The information file VTS_nn_0.IFO of title set `vts` is recognised. */
  lemma IfoNameAccepted(vts: string)
    requires !HasChar(vts, '/')
    ensures IsDvdTitleSetFileName(vts + "_0" + ".IFO")
  {
    var name := vts + "_0";
    NoSeparatorAppended(vts, "_0");
    UpperDottedName(name, "IFO");
    EndsWithAppended(vts, "_0");
    var full := vts + "_0" + ".IFO";
    assert full == name + "." + "IFO";
    IfoBaseName(full, name);
  }

  lemma EndsWithAppended(a: string, b: string)
    ensures EndsWith(a + b, b)
  {
    assert (a + b)[|a|..] == b;
  }

  lemma IfoBaseName(full: string, name: string)
    requires ToUpper(Suffix(full)) == "IFO" && CompleteBaseName(full) == name && EndsWith(name, "_0")
    ensures IsDvdTitleSetFileName(full)
  {
  }

  /** The video files VTS_nn_d.VOB of title set `vts`, d a digit, are recognised. */
  lemma VobNameAccepted(vts: string, d: char)
    requires |vts| > 0 && !HasChar(vts, '/') && IsDigit(d)
    ensures IsDvdTitleSetFileName(vts + ['_', d] + ".VOB")
  {
    var name := vts + ['_', d];
    NoSeparatorAppended(vts, ['_', d]);
    UpperDottedName(name, "VOB");
    var full := vts + ['_', d] + ".VOB";
    assert full == name + "." + "VOB";
    VobBaseName(full, name);
  }

  lemma VobBaseName(full: string, name: string)
    requires ToUpper(Suffix(full)) == "VOB" && CompleteBaseName(full) == name
    requires |name| > 2 && name[|name| - 2] == '_' && IsDigit(name[|name| - 1])
    ensures IsDvdTitleSetFileName(full)
  {
    assert "VOB" != "IFO";
  }

  /** The backup VTS_nn_0.BUP is not a title set file. */
  lemma BackupNameRejected(vts: string)
    requires !HasChar(vts, '/')
    ensures !IsDvdTitleSetFileName(vts + "_0" + ".BUP")
  {
    var name := vts + "_0";
    NoSeparatorAppended(vts, "_0");
    UpperDottedName(name, "BUP");
    assert name + "." + "BUP" == vts + "_0" + ".BUP";
  }

  /** Appending "_" and one character other than '/' adds no directory separator. */
  lemma NoSeparatorAppended(a: string, b: string)
    requires !HasChar(a, '/') && |b| == 2 && b[0] == '_' && b[1] != '/'
    ensures !HasChar(a + b, '/')
  {
    forall i | 0 <= i < |a + b| ensures (a + b)[i] != '/' {
      if i < |a| {
        assert (a + b)[i] == a[i];
      } else {
        assert (a + b)[i] == b[i - |a|];
      }
    }
  }

  /** The suffix of `name.ext` (in upper case) and its base name. */
  lemma UpperDottedName(name: string, ext: string)
    requires !HasChar(name, '/') && |ext| == 3 && forall i :: 0 <= i < 3 ==> 'A' <= ext[i] <= 'Z'
    ensures ToUpper(Suffix(name + "." + ext)) == ext && CompleteBaseName(name + "." + ext) == name
  {
    assert !HasChar(ext, '/') && !HasChar(ext, '.');
    assert name + "." + ext == name + ['.'] + ext;
    SuffixOfDotted(name, ext);
    CompleteBaseNameOfDotted(name, ext);
    assert ToUpper(ext) == ext;
  }

  // ---------------------------------------------------------------------
  // IFO header and stream attributes
  // ---------------------------------------------------------------------

  /** The IFO is long enough and starts with "DVDVIDEO-VTS". */
  predicate HeaderOk(ifo: seq<byte>)
  {
    |ifo| >= IfoHeaderSize && Latin1(ifo, 0, 12) == "DVDVIDEO-VTS"
  }

  /** The width and height given by the video standard (NTSC, PAL) and resolution codes. */
  function FrameSize(standard: int, resolution: int): (int, int)
  {
    if standard == 0 then
      (if resolution == 0 then (720, 480) else if resolution == 1 then (704, 480)
       else if resolution == 2 then (352, 480) else if resolution == 3 then (352, 240) else (0, 0))
    else if standard == 1 then
      (if resolution == 0 then (720, 576) else if resolution == 1 then (704, 576)
       else if resolution == 2 then (352, 576) else if resolution == 3 then (352, 288) else (0, 0))
    else (0, 0)
  }

  /** The single video stream of a title set (stream id 0x1E0). */
  function VideoStream(ifo: seq<byte>): (r: StreamInfo)
    requires |ifo| >= IfoHeaderSize
    ensures r.streamType == Video && r.streamId == 0x1E0
    ensures (r.width, r.height) == FrameSize((ifo[VideoAttrOffset] / 16) % 4, (ifo[VideoAttrOffset + 1] / 8) % 8)
  {
    var size := FrameSize((ifo[VideoAttrOffset] / 16) % 4, (ifo[VideoAttrOffset + 1] / 8) % 8);
    Default.(streamType := Video, streamId := 0x1E0, width := size.0, height := size.1)
  }

  function Min(a: int, b: int): int
  {
    if a < b then a else b
  }

  /** Number of audio streams: the IFO count, at most 8. */
  function AudioCount(ifo: seq<byte>): (r: nat)
    ensures r <= AudioMaxCount && r <= BE16(ifo, AudioCountOffset)
    ensures BE16(ifo, AudioCountOffset) <= AudioMaxCount ==> r == BE16(ifo, AudioCountOffset)
  {
    Min(BE16(ifo, AudioCountOffset), AudioMaxCount)
  }

  /** Number of subpicture streams: the IFO count, at most 32. */
  function SubpicCount(ifo: seq<byte>): (r: nat)
    ensures r <= SubpicMaxCount && r <= BE16(ifo, SubpicCountOffset)
    ensures BE16(ifo, SubpicCountOffset) <= SubpicMaxCount ==> r == BE16(ifo, SubpicCountOffset)
  {
    Min(BE16(ifo, SubpicCountOffset), SubpicMaxCount)
  }

  /**
   * Stream id of audio stream `i` by coding mode: AC-3 0x80+i, MPEG-1 0xC0+i,
   * MPEG-2 extended 0xC8+i, LPCM 0xA0+i, DTS 0x88+i; no id otherwise.
   */
  function AudioStreamId(codingMode: int, i: int): int
  {
    if codingMode == 0 then 0x80 + i
    else if codingMode == 2 then 0xC0 + i
    else if codingMode == 3 then 0xC8 + i
    else if codingMode == 4 then 0xA0 + i
    else if codingMode == 6 then 0x88 + i
    else -1
  }

  /** Audio stream `i` from its 8-byte attribute entry. */
  function AudioStream(ifo: seq<byte>, i: nat): (r: StreamInfo)
    requires |ifo| >= IfoHeaderSize && i < AudioMaxCount
    ensures r.streamType == Audio && 1 <= r.audioChannels <= 8
    ensures r.streamId == AudioStreamId(ifo[AudioAttrOffset + AudioAttrSize * i] / 32, i)
  {
    var start := AudioAttrOffset + AudioAttrSize * i;
    var codingMode := ifo[start] / 32;
    var kind := ifo[start + 5];
    var languagePresent := (ifo[start] / 4) % 4 == 1;
    Default.(
      streamType := Audio,
      streamId := AudioStreamId(codingMode, i),
      audioChannels := ifo[start + 1] % 8 + 1,
      impaired := kind == 2,
      commentary := kind == 3 || kind == 4,
      language := if languagePresent then NormalizeLanguage(Latin1(ifo, start + 2, 2)) else "")
  }

  /** Subpicture stream `i` from its 6-byte attribute entry: a DVD subtitle with id 0x20+i. */
  function SubpicStream(ifo: seq<byte>, i: nat): (r: StreamInfo)
    requires |ifo| >= IfoHeaderSize && i < SubpicMaxCount
    ensures r.streamType == Subtitle && r.subtitleType == SubDvd && r.streamId == 0x20 + i
  {
    var start := SubpicAttrOffset + SubpicAttrSize * i;
    var kind := ifo[start + 5];
    var languagePresent := ifo[start] % 4 == 1;
    Default.(
      streamType := Subtitle,
      subtitleType := SubDvd,
      streamId := 0x20 + i,
      impaired := 1 <= kind <= 7,
      commentary := 13 <= kind <= 15,
      forced := kind == 9,
      language := if languagePresent then NormalizeLanguage(Latin1(ifo, start + 2, 2)) else "")
  }

  function AudioStreams(ifo: seq<byte>): seq<StreamInfo>
    requires |ifo| >= IfoHeaderSize
  {
    seq(AudioCount(ifo), i requires 0 <= i < AudioCount(ifo) => AudioStream(ifo, i))
  }

  function SubpicStreams(ifo: seq<byte>): seq<StreamInfo>
    requires |ifo| >= IfoHeaderSize
  {
    seq(SubpicCount(ifo), i requires 0 <= i < SubpicCount(ifo) => SubpicStream(ifo, i))
  }


  /** The audio streams of the IFO, in attribute table order. */
  method ReadAudioStreams(ifo: seq<byte>) returns (audio: seq<StreamInfo>)
    requires |ifo| >= IfoHeaderSize
    ensures audio == AudioStreams(ifo)
  {
    var audioCount := Min(BE16(ifo, AudioCountOffset), AudioMaxCount);
    audio := [];
    var i := 0;
    while i < audioCount
      invariant 0 <= i <= audioCount == AudioCount(ifo)
      invariant audio == AudioStreams(ifo)[..i]
    {
      PrefixSnoc(AudioStreams(ifo), i);
      audio := audio + [AudioStream(ifo, i)];
      i := i + 1;
    }
  }

  /** The subpicture streams of the IFO, in attribute table order. */
  method ReadSubpicStreams(ifo: seq<byte>) returns (subpictures: seq<StreamInfo>)
    requires |ifo| >= IfoHeaderSize
    ensures subpictures == SubpicStreams(ifo)
  {
    var subpicCount := Min(BE16(ifo, SubpicCountOffset), SubpicMaxCount);
    subpictures := [];
    var i := 0;
    while i < subpicCount
      invariant 0 <= i <= subpicCount == SubpicCount(ifo)
      invariant subpictures == SubpicStreams(ifo)[..i]
    {
      PrefixSnoc(SubpicStreams(ifo), i);
      subpictures := subpictures + [SubpicStream(ifo, i)];
      i := i + 1;
    }
  }

  // ---------------------------------------------------------------------
  // Cell address table
  // ---------------------------------------------------------------------

  /** A cell of the original VOB files: VOB id, cell id and sector range. */
  datatype OriginalCell = OriginalCell(vobId: int, cellId: int, sectors: Span)

  /** Byte offset of the cell address table: a sector number times 2048, in 32-bit arithmetic. */
  function CadtStart(ifo: seq<byte>): int
  {
    I32(SectorSize * BE32(ifo, VtsCadtOffset))
  }

  /** End of the cell address table (its last byte plus one), in 32-bit arithmetic. */
  function CadtEnd(ifo: seq<byte>): int
  {
    I32(CadtStart(ifo) + BE32(ifo, CadtStart(ifo) + 4) + 1)
  }

  predicate CadtOk(ifo: seq<byte>)
  {
    CadtStart(ifo) + AdtHeaderSize <= |ifo| && CadtEnd(ifo) <= |ifo|
  }

  /** Number of 12-byte entries that start before the end of the table. */
  function CadtEntryCount(ifo: seq<byte>): nat
  {
    var first := CadtStart(ifo) + AdtHeaderSize;
    if CadtEnd(ifo) > first then (CadtEnd(ifo) - first + AdtEntrySize - 1) / AdtEntrySize else 0
  }

  /** The cell described by the table entry at `index`. */
  function CadtCell(ifo: seq<byte>, index: int): OriginalCell
  {
    OriginalCell(BE16(ifo, index), At(ifo, index + 2),
                 SpanOfBounds(I32(BE32(ifo, index + 4)), I32(BE32(ifo, index + 8))))
  }

  function CadtCells(ifo: seq<byte>): seq<OriginalCell>
  {
    seq(CadtEntryCount(ifo), k requires 0 <= k < CadtEntryCount(ifo) =>
      CadtCell(ifo, CadtStart(ifo) + AdtHeaderSize + AdtEntrySize * k))
  }

  /** An entry starting 12n bytes into a table of d bytes is one of its ceil(d/12) entries. */
  lemma EntryCount(d: int, n: nat)
    ensures AdtEntrySize * n < d <==> n < (if d > 0 then (d + AdtEntrySize - 1) / AdtEntrySize else 0)
  {
    if d > 0 {
      var m := (d + AdtEntrySize - 1) / AdtEntrySize;
      assert AdtEntrySize * m <= d + AdtEntrySize - 1 < AdtEntrySize * m + AdtEntrySize;
    }
  }

  // ---------------------------------------------------------------------
  // Program chain table
  // ---------------------------------------------------------------------

  /** Byte offset of the program chain information table (VTS_PGCI). */
  function PgciStart(ifo: seq<byte>): int
  {
    I32(SectorSize * BE32(ifo, VtsPgciOffset))
  }

  function PgcCount(ifo: seq<byte>): nat
  {
    if |ifo| >= PgciStart(ifo) + 8 then BE16(ifo, PgciStart(ifo)) else 0
  }

  /** The table header is present, not empty and its entries lie inside the IFO. */
  predicate PgciOk(ifo: seq<byte>)
  {
    var start := PgciStart(ifo);
    var lastByte := I32(BE32(ifo, start + 4));
    |ifo| >= start + 8 && PgcCount(ifo) > 0 && lastByte > 0
    && |ifo| >= start + lastByte && |ifo| >= start + 8 + 8 * PgcCount(ifo)
  }

  /** The title number of table entry `j`; 0 when the entry is not set. */
  function EntryTitle(ifo: seq<byte>, j: int): int
  {
    var flags := At(ifo, PgciStart(ifo) + 8 + 8 * j);
    if flags < 0x80 then 0 else flags - 0x80
  }

  /** Start of the PGC of entry `j`, relative to the table, in 32-bit arithmetic. */
  function EntryPgcStart(ifo: seq<byte>, j: int): int
  {
    I32(PgciStart(ifo) + BE32(ifo, PgciStart(ifo) + 8 + 8 * j + 4))
  }

  /** Entry `j` is set and names a title in 1..PgcCount: its PGC is parsed. */
  predicate EntryInRange(ifo: seq<byte>, j: int)
  {
    1 <= EntryTitle(ifo, j) <= PgcCount(ifo)
  }

  /** Entry `j` is parsed and its PGC is valid: the PGC is stored. */
  predicate EntryLoads(ifo: seq<byte>, j: int)
  {
    EntryInRange(ifo, j) && PgcValid(ifo, EntryPgcStart(ifo, j))
  }

  /** Entry `j` is parsed and its PGC is not valid: the reading stops there. */
  predicate EntryFails(ifo: seq<byte>, j: int)
  {
    EntryInRange(ifo, j) && !PgcValid(ifo, EntryPgcStart(ifo, j))
  }

  /** The PGC that entry `j` stores, if any. */
  function EntryLoad(ifo: seq<byte>, j: int): Option<ProgramChain>
  {
    if EntryLoads(ifo, j) then Some(ValidChain(ifo, EntryPgcStart(ifo, j), EntryTitle(ifo, j))) else None
  }

  /** What each entry of the table stores, in table order. */
  function Entries(ifo: seq<byte>): seq<Option<ProgramChain>>
  {
    seq(PgcCount(ifo), j => EntryLoad(ifo, j))
  }

  /** Every PGC of `loads` is valid and has a title number in 1..`bound`. */
  predicate Numbered(loads: seq<Option<ProgramChain>>, bound: int)
  {
    forall j :: 0 <= j < |loads| && loads[j].Some? ==>
      1 <= loads[j].value.titleNumber <= bound && loads[j].value.valid
  }

  /** The entries of a table store valid PGCs with title numbers in 1..PgcCount. */
  lemma EntriesNumbered(ifo: seq<byte>)
    ensures |Entries(ifo)| == PgcCount(ifo) && Numbered(Entries(ifo), PgcCount(ifo))
    ensures forall j :: 0 <= j < PgcCount(ifo) ==> (Entries(ifo)[j].Some? <==> !EntryFails(ifo, j) && EntryInRange(ifo, j))
  {
  }

  /** Each stored PGC is valid and sits at the index of its title number. */
  predicate Indexed(p: seq<Option<ProgramChain>>)
  {
    forall k :: 0 <= k < |p| && p[k].Some? ==> p[k].value.titleNumber == k + 1 && p[k].value.valid
  }

  /** The PGC list `p` with `pgc` stored at the index of its title number, grown with empty slots. */
  function Stored(p: seq<Option<ProgramChain>>, pgc: ProgramChain): (r: seq<Option<ProgramChain>>)
    requires pgc.titleNumber >= 1
    ensures |r| == if |p| < pgc.titleNumber then pgc.titleNumber else |p|
    ensures r[pgc.titleNumber - 1] == Some(pgc)
    ensures forall k :: 0 <= k < |r| && k != pgc.titleNumber - 1 ==> r[k] == if k < |p| then p[k] else None
  {
    var grown := if |p| < pgc.titleNumber then p + seq(pgc.titleNumber - |p|, _ => None) else p;
    grown[pgc.titleNumber - 1 := Some(pgc)]
  }

  /** The PGC list after one table entry: its PGC stored, if it has one. */
  function LoadEntry(p: seq<Option<ProgramChain>>, load: Option<ProgramChain>): seq<Option<ProgramChain>>
  {
    if load.Some? && load.value.titleNumber >= 1 then Stored(p, load.value) else p
  }

  /** The PGC list after the entries `loads`, in order. */
  function Loaded(p: seq<Option<ProgramChain>>, loads: seq<Option<ProgramChain>>): seq<Option<ProgramChain>>
  {
    if loads == [] then p else LoadEntry(Loaded(p, loads[..|loads| - 1]), loads[|loads| - 1])
  }

  /** Loading one more entry. */
  lemma LoadedSnoc(p: seq<Option<ProgramChain>>, loads: seq<Option<ProgramChain>>, load: Option<ProgramChain>)
    ensures Loaded(p, loads + [load]) == LoadEntry(Loaded(p, loads), load)
  {
    assert (loads + [load])[..|loads|] == loads;
  }

  /** The first failing entry at or after `j`, or PgcCount when there is none. */
  function FirstFailure(ifo: seq<byte>, j: nat): (m: nat)
    decreases PgcCount(ifo) - j
    ensures j <= m && (j <= PgcCount(ifo) ==> m <= PgcCount(ifo))
    ensures forall i :: j <= i < m ==> !EntryFails(ifo, i)
    ensures m < PgcCount(ifo) ==> EntryFails(ifo, m)
  {
    if j >= PgcCount(ifo) || EntryFails(ifo, j) then j else FirstFailure(ifo, j + 1)
  }

  /** The program chain table is read without error: present, and every parsed PGC valid. */
  predicate ChainsOk(ifo: seq<byte>)
  {
    PgciOk(ifo) && FirstFailure(ifo, 0) == PgcCount(ifo)
  }

  /** The PGC list after reading the table into `p`: every entry before the first failing one. */
  function ChainsRead(p: seq<Option<ProgramChain>>, ifo: seq<byte>): seq<Option<ProgramChain>>
  {
    if PgciOk(ifo) then Loaded(p, Entries(ifo)[..FirstFailure(ifo, 0)]) else p
  }

  /** Reading entries keeps every stored PGC at the index of its title number. */
  lemma {:induction false} LoadedIndexed(p: seq<Option<ProgramChain>>, loads: seq<Option<ProgramChain>>, bound: int)
    requires Indexed(p) && Numbered(loads, bound)
    ensures Indexed(Loaded(p, loads))
  {
    if loads != [] {
      LoadedIndexed(p, loads[..|loads| - 1], bound);
    }
  }

  /**
   * Reading entries only grows the list up to `bound` slots, only changes
   * slots of titles 1..`bound`, and never removes a stored PGC.
   */
  lemma {:induction false} LoadedLength(p: seq<Option<ProgramChain>>, loads: seq<Option<ProgramChain>>, bound: int)
    requires Numbered(loads, bound)
    ensures |p| <= |Loaded(p, loads)| <= if |p| < bound then bound else |p|
    ensures forall k :: 0 <= k < |p| && Loaded(p, loads)[k] != p[k] ==> k < bound
    ensures forall k :: 0 <= k < |p| && p[k].Some? ==> Loaded(p, loads)[k].Some?
  {
    if loads != [] {
      LoadedLength(p, loads[..|loads| - 1], bound);
    }
  }

  /** After reading entries, the title of every one of them that has a PGC is stored. */
  lemma {:induction false} LoadedHasEntries(p: seq<Option<ProgramChain>>, loads: seq<Option<ProgramChain>>, bound: int)
    requires Numbered(loads, bound)
    ensures forall j :: 0 <= j < |loads| && loads[j].Some? ==>
      loads[j].value.titleNumber <= |Loaded(p, loads)| && Loaded(p, loads)[loads[j].value.titleNumber - 1].Some?
  {
    if loads != [] {
      LoadedHasEntries(p, loads[..|loads| - 1], bound);
    }
  }

  /** The last entry that stores a title is the one whose PGC that title holds. */
  lemma {:induction false} LoadedLastEntry(p: seq<Option<ProgramChain>>, loads: seq<Option<ProgramChain>>, bound: int, j: nat)
    requires Numbered(loads, bound) && j < |loads| && loads[j].Some?
    requires forall i :: j < i < |loads| && loads[i].Some? ==> loads[i].value.titleNumber != loads[j].value.titleNumber
    ensures loads[j].value.titleNumber <= |Loaded(p, loads)|
    ensures Loaded(p, loads)[loads[j].value.titleNumber - 1] == loads[j]
  {
    if j < |loads| - 1 {
      LoadedLastEntry(p, loads[..|loads| - 1], bound, j);
    }
  }

  /**
   * Every slot that reading entries filled or changed holds the PGC of an
   * entry naming that title, the last such entry read.
   */
  lemma {:induction false} LoadedSource(p: seq<Option<ProgramChain>>, loads: seq<Option<ProgramChain>>, bound: int, k: nat)
    returns (j: nat)
    requires Numbered(loads, bound)
    requires k < |Loaded(p, loads)| && Loaded(p, loads)[k].Some?
    requires k >= |p| || Loaded(p, loads)[k] != p[k]
    ensures j < |loads| && loads[j] == Loaded(p, loads)[k] && loads[j].value.titleNumber == k + 1
    ensures forall i :: j < i < |loads| && loads[i].Some? ==> loads[i].value.titleNumber != k + 1
  {
    if loads == [] {
      assert false;
    } else {
      var n := |loads| - 1;
      var q := Loaded(p, loads[..n]);
      if loads[n].Some? && loads[n].value.titleNumber == k + 1 {
        j := n;
      } else {
        assert k < |q| && q[k] == Loaded(p, loads)[k];
        j := LoadedSource(p, loads[..n], bound, k);
      }
    }
  }

  /** Every set entry with a title number in range has its title stored in `q`. */
  predicate HasEntryTitles(q: seq<Option<ProgramChain>>, ifo: seq<byte>)
  {
    forall j :: 0 <= j < PgcCount(ifo) && EntryInRange(ifo, j) ==>
      EntryTitle(ifo, j) <= |q| && q[EntryTitle(ifo, j) - 1].Some?
  }

  /** A prefix of the entries stores valid PGCs with title numbers in 1..PgcCount. */
  lemma EntriesPrefix(ifo: seq<byte>, n: nat)
    requires n <= PgcCount(ifo)
    ensures Numbered(Entries(ifo)[..n], PgcCount(ifo))
  {
    EntriesNumbered(ifo);
  }

  /** Reading entry `i` after the ones before it. */
  lemma LoadedStep(p: seq<Option<ProgramChain>>, ifo: seq<byte>, i: nat)
    requires i < PgcCount(ifo)
    ensures Loaded(p, Entries(ifo)[..i + 1]) == LoadEntry(Loaded(p, Entries(ifo)[..i]), EntryLoad(ifo, i))
  {
    PrefixSnoc(Entries(ifo), i);
    LoadedSnoc(p, Entries(ifo)[..i], EntryLoad(ifo, i));
  }

  /** When no entry fails, the whole table is read and every entry's title is stored. */
  lemma ChainsReadOk(p: seq<Option<ProgramChain>>, ifo: seq<byte>)
    requires PgciOk(ifo) && FirstFailure(ifo, 0) == PgcCount(ifo)
    ensures ChainsRead(p, ifo) == Loaded(p, Entries(ifo)[..PgcCount(ifo)])
    ensures HasEntryTitles(ChainsRead(p, ifo), ifo)
  {
    var loads := Entries(ifo)[..PgcCount(ifo)];
    EntriesNumbered(ifo);
    assert loads == Entries(ifo);
    LoadedHasEntries(p, loads, PgcCount(ifo));
    forall j | 0 <= j < PgcCount(ifo) && EntryInRange(ifo, j)
      ensures EntryTitle(ifo, j) <= |ChainsRead(p, ifo)| && ChainsRead(p, ifo)[EntryTitle(ifo, j) - 1].Some?
    {
      assert loads[j].Some? && loads[j].value.titleNumber == EntryTitle(ifo, j);
    }
  }

  /** A failing entry `m` ends the reading: what is read is the entries up to and including it. */
  lemma ChainsReadFailed(p: seq<Option<ProgramChain>>, ifo: seq<byte>, m: nat)
    requires PgciOk(ifo) && m < PgcCount(ifo) && FirstFailure(ifo, 0) == m
    ensures ChainsRead(p, ifo) == Loaded(p, Entries(ifo)[..m + 1])
  {
    EntriesNumbered(ifo);
    assert Entries(ifo)[..m + 1] == Entries(ifo)[..m] + [Entries(ifo)[m]];
    LoadedSnoc(p, Entries(ifo)[..m], Entries(ifo)[m]);
  }

  // ---------------------------------------------------------------------
  // The title set
  // ---------------------------------------------------------------------

  class TitleSet {
    var streams: seq<StreamInfo>
    var originalCells: seq<OriginalCell>
    var originalVobCount: int
    /** The PGCs, indexed by title number - 1; None where no valid PGC was found. */
    var pgcs: seq<Option<ProgramChain>>

    /** Each stored PGC is valid and sits at the index of its title number. */
    predicate TitlesIndexed()
      reads this
    {
      Indexed(pgcs)
    }

    /** An empty title set, as after clear(). */
    constructor ()
      ensures streams == [] && originalCells == [] && originalVobCount == 0 && pgcs == []
      ensures TitlesIndexed()
    {
      streams := [];
      originalCells := [];
      originalVobCount := 0;
      pgcs := [];
    }

    /** title(n): the PGC of title n, none outside 1..titleCount. */
    function Title(n: int): (r: Option<ProgramChain>)
      reads this
      ensures r.Some? ==> 1 <= n <= |pgcs| && r == pgcs[n - 1]
    {
      if n < 1 || n > |pgcs| then None else pgcs[n - 1]
    }

    /**
     * readVtsIfo: read the streams, the cell address table and the program
     * chains of the IFO file content `ifo`. The PGCs are parsed with the
     * QtlDvdProgramChain parser.
     */
    method ReadVtsIfo(ifo: seq<byte>) returns (ok: bool)
      requires TitlesIndexed()
      modifies this
      ensures TitlesIndexed()
      ensures !HeaderOk(ifo) ==> (!ok && streams == old(streams) && originalCells == old(originalCells)
        && pgcs == old(pgcs) && originalVobCount == old(originalVobCount))
      ensures HeaderOk(ifo) ==> streams == old(streams) + [VideoStream(ifo)] + AudioStreams(ifo) + SubpicStreams(ifo)
      ensures HeaderOk(ifo) && CadtOk(ifo) ==> (originalCells == old(originalCells) + CadtCells(ifo)
        && originalVobCount == BE16(ifo, CadtStart(ifo)))
      ensures HeaderOk(ifo) && !CadtOk(ifo) ==> (!ok && originalCells == old(originalCells) && pgcs == old(pgcs))
      ensures ok ==> HeaderOk(ifo) && CadtOk(ifo) && PgciOk(ifo)
      ensures ok == (HeaderOk(ifo) && CadtOk(ifo) && ChainsOk(ifo))
      ensures HeaderOk(ifo) && CadtOk(ifo) ==> pgcs == ChainsRead(old(pgcs), ifo)
      ensures |old(pgcs)| <= |pgcs| <= if |old(pgcs)| < PgcCount(ifo) then PgcCount(ifo) else |old(pgcs)|
      ensures forall k :: 0 <= k < |old(pgcs)| && pgcs[k] != old(pgcs)[k] ==> k < PgcCount(ifo)
      ensures ok ==> HasEntryTitles(pgcs, ifo)
    {
      if |ifo| == 0 || !(|ifo| >= IfoHeaderSize && Latin1(ifo, 0, 12) == "DVDVIDEO-VTS") {
        return false;
      }
      AppendStreams(ifo);
      ok := ReadCellTable(ifo);
      if !ok {
        return;
      }
      ok := ReadProgramChains(ifo);
    }

    /** The video stream, then the audio streams, then the subpicture streams, in IFO order. */
    method AppendStreams(ifo: seq<byte>)
      requires |ifo| >= IfoHeaderSize
      modifies this
      ensures streams == old(streams) + [VideoStream(ifo)] + AudioStreams(ifo) + SubpicStreams(ifo)
      ensures originalCells == old(originalCells) && originalVobCount == old(originalVobCount) && pgcs == old(pgcs)
    {
      var audio := ReadAudioStreams(ifo);
      var subpictures := ReadSubpicStreams(ifo);
      streams := streams + [VideoStream(ifo)] + audio + subpictures;
    }

    /** The cell address table (VTS_C_ADT); fails when it does not fit in the IFO. */
    method ReadCellTable(ifo: seq<byte>) returns (ok: bool)
      modifies this
      ensures ok == CadtOk(ifo)
      ensures ok ==> originalCells == old(originalCells) + CadtCells(ifo) && originalVobCount == BE16(ifo, CadtStart(ifo))
      ensures !ok ==> originalCells == old(originalCells)
      ensures streams == old(streams) && pgcs == old(pgcs)
    {
      var cadtStart := I32(SectorSize * BE32(ifo, VtsCadtOffset));
      var cadtEnd := 0;
      ok := cadtStart + AdtHeaderSize <= |ifo|;
      if ok {
        originalVobCount := BE16(ifo, cadtStart);
        cadtEnd := I32(cadtStart + BE32(ifo, cadtStart + 4) + 1);
        ok := cadtEnd <= |ifo|;
      }
      if !ok {
        return;
      }

      var cells := ReadCells(ifo, cadtStart, cadtEnd);
      originalCells := originalCells + cells;
    }

    /** The loop of the cell address table: one cell per 12-byte entry until the end of the table. */
    static method ReadCells(ifo: seq<byte>, cadtStart: int, cadtEnd: int) returns (cells: seq<OriginalCell>)
      requires cadtStart == CadtStart(ifo) && cadtEnd == CadtEnd(ifo)
      ensures cells == CadtCells(ifo)
    {
      ghost var count := CadtEntryCount(ifo);
      cells := [];
      var cadtIndex := cadtStart + AdtHeaderSize;
      ghost var n := 0;
      while cadtIndex < cadtEnd
        invariant 0 <= n <= count
        invariant cadtIndex == cadtStart + AdtHeaderSize + AdtEntrySize * n
        invariant cells == CadtCells(ifo)[..n]
        decreases cadtEnd - cadtIndex
      {
        EntryCount(cadtEnd - (cadtStart + AdtHeaderSize), n);
        cells := cells + [CadtCell(ifo, cadtIndex)];
        cadtIndex := cadtIndex + AdtEntrySize;
        n := n + 1;
      }
      EntryCount(cadtEnd - (cadtStart + AdtHeaderSize), n);
      assert CadtCells(ifo)[..n] == CadtCells(ifo);
    }

    /**
     * The program chain table (VTS_PGCI): each set entry whose title number
     * is in range has its PGC parsed and stored at that title number; the
     * first entry whose PGC is not valid ends the reading with an error.
     */
    method ReadProgramChains(ifo: seq<byte>) returns (ok: bool)
      requires TitlesIndexed()
      modifies this
      ensures TitlesIndexed()
      ensures ok == ChainsOk(ifo) && pgcs == ChainsRead(old(pgcs), ifo)
      ensures ok ==> PgciOk(ifo)
      ensures |old(pgcs)| <= |pgcs| <= if |old(pgcs)| < PgcCount(ifo) then PgcCount(ifo) else |old(pgcs)|
      ensures forall k :: 0 <= k < |old(pgcs)| && pgcs[k] != old(pgcs)[k] ==> k < PgcCount(ifo)
      ensures ok ==> HasEntryTitles(pgcs, ifo)
      ensures streams == old(streams) && originalCells == old(originalCells) && originalVobCount == old(originalVobCount)
    {
      var pgciStart := I32(SectorSize * BE32(ifo, VtsPgciOffset));
      var pgcCount := 0;
      var pgcLastByte := 0;
      ok := |ifo| >= pgciStart + 8;
      if ok {
        pgcCount := BE16(ifo, pgciStart);
        pgcLastByte := I32(BE32(ifo, pgciStart + 4));
        ok := pgcCount > 0 && pgcLastByte > 0 && |ifo| >= pgciStart + pgcLastByte && |ifo| >= pgciStart + 8 + 8 * pgcCount;
      }
      assert ok == PgciOk(ifo);
      if ok {
        assert pgcCount == PgcCount(ifo);
      }
      EntriesNumbered(ifo);
      ghost var p := pgcs;

      var pgcIndex := 0;
      while ok && pgcIndex < pgcCount
        invariant 0 <= pgcIndex <= pgcCount
        invariant ok ==> PgciOk(ifo) && pgcCount == PgcCount(ifo)
        invariant TitlesIndexed()
        invariant pgcs == Loaded(p, Entries(ifo)[..pgcIndex])
        invariant ok ==> FirstFailure(ifo, 0) == FirstFailure(ifo, pgcIndex)
        invariant !ok && PgciOk(ifo) ==> 0 < pgcIndex && FirstFailure(ifo, 0) == pgcIndex - 1
        invariant !PgciOk(ifo) ==> pgcIndex == 0
        invariant streams == old(streams) && originalCells == old(originalCells) && originalVobCount == old(originalVobCount)
      {
        ok := ReadPgcEntry(ifo, pgciStart, pgcCount, pgcIndex);
        LoadedStep(p, ifo, pgcIndex);
        pgcIndex := pgcIndex + 1;
      }
      if PgciOk(ifo) {
        if ok {
          ChainsReadOk(p, ifo);
        } else {
          ChainsReadFailed(p, ifo, pgcIndex - 1);
        }
      }
      EntriesPrefix(ifo, pgcIndex);
      LoadedLength(p, Entries(ifo)[..pgcIndex], PgcCount(ifo));
    }

    /**
     * One entry of the program chain table: skipped when not set or when its
     * title number is out of range; otherwise its PGC is parsed and, when
     * valid, stored.
     */
    method ReadPgcEntry(ifo: seq<byte>, pgciStart: int, pgcCount: int, pgcIndex: int) returns (ok: bool)
      requires TitlesIndexed() && pgciStart == PgciStart(ifo) && pgcCount == PgcCount(ifo)
      modifies this
      ensures TitlesIndexed()
      ensures ok == !EntryFails(ifo, pgcIndex)
      ensures pgcs == LoadEntry(old(pgcs), EntryLoad(ifo, pgcIndex))
      ensures |old(pgcs)| <= |pgcs| <= if |old(pgcs)| < pgcCount then pgcCount else |old(pgcs)|
      ensures forall k :: 0 <= k < |old(pgcs)| && pgcs[k] != old(pgcs)[k] ==> k < pgcCount
      ensures forall n :: old(Title(n)).Some? ==> Title(n).Some?
      ensures ok && 1 <= EntryTitle(ifo, pgcIndex) <= pgcCount ==> Title(EntryTitle(ifo, pgcIndex)).Some?
      ensures streams == old(streams) && originalCells == old(originalCells) && originalVobCount == old(originalVobCount)
    {
      var descIndex := pgciStart + 8 + 8 * pgcIndex;
      var flags := At(ifo, descIndex);
      var titleNumber := if flags < 0x80 then 0 else flags - 0x80;
      assert titleNumber == EntryTitle(ifo, pgcIndex);
      ok := true;
      if flags >= 0x80 && 1 <= titleNumber <= pgcCount {
        var pgcStart := I32(pgciStart + BE32(ifo, descIndex + 4));
        assert pgcStart == EntryPgcStart(ifo, pgcIndex);
        ok := LoadTitle(ifo, pgcStart, titleNumber);
      }
    }

    /** Parse the PGC at `pgcStart` and, when valid, store it as title `titleNumber`. */
    method LoadTitle(ifo: seq<byte>, pgcStart: int, titleNumber: int) returns (ok: bool)
      requires TitlesIndexed() && titleNumber >= 1
      modifies this
      ensures TitlesIndexed() && ok == PgcValid(ifo, pgcStart)
      ensures ok ==> pgcs == Stored(old(pgcs), ValidChain(ifo, pgcStart, titleNumber))
      ensures ok ==> Title(titleNumber) == Some(ValidChain(ifo, pgcStart, titleNumber))
      ensures !ok ==> pgcs == old(pgcs)
      ensures |old(pgcs)| <= |pgcs| <= if |old(pgcs)| < titleNumber then titleNumber else |old(pgcs)|
      ensures forall k :: 0 <= k < |old(pgcs)| && pgcs[k] != old(pgcs)[k] ==> k == titleNumber - 1
      ensures forall n :: old(Title(n)).Some? ==> Title(n).Some?
      ensures streams == old(streams) && originalCells == old(originalCells) && originalVobCount == old(originalVobCount)
    {
      var pgc := ParseProgramChain(ifo, pgcStart, titleNumber);
      ok := pgc.valid;
      if ok {
        StoreTitle(pgc);
      }
    }

    /** Store a valid PGC at the index of its title number, growing the list with empty slots. */
    method StoreTitle(pgc: ProgramChain)
      requires TitlesIndexed() && pgc.valid && pgc.titleNumber >= 1
      modifies this
      ensures TitlesIndexed() && Title(pgc.titleNumber) == Some(pgc)
      ensures pgcs == Stored(old(pgcs), pgc)
      ensures |pgcs| == if |old(pgcs)| < pgc.titleNumber then pgc.titleNumber else |old(pgcs)|
      ensures forall k :: 0 <= k < |pgcs| && k != pgc.titleNumber - 1 ==>
        pgcs[k] == if k < |old(pgcs)| then old(pgcs)[k] else None
      ensures streams == old(streams) && originalCells == old(originalCells) && originalVobCount == old(originalVobCount)
    {
      while |pgcs| < pgc.titleNumber
        invariant |old(pgcs)| <= |pgcs|
        invariant |pgcs| == |old(pgcs)| || |pgcs| <= pgc.titleNumber
        invariant TitlesIndexed()
        invariant forall k :: 0 <= k < |pgcs| ==> pgcs[k] == if k < |old(pgcs)| then old(pgcs)[k] else None
        invariant streams == old(streams) && originalCells == old(originalCells) && originalVobCount == old(originalVobCount)
      {
        pgcs := pgcs + [None];
      }
      pgcs := pgcs[pgc.titleNumber - 1 := Some(pgc)];
    }

    /** The title numbers under which a PGC is stored. */
    ghost function StoredNumbers(): set<int>
      reads this
    {
      set k | 0 <= k < |pgcs| && pgcs[k].Some? :: pgcs[k].value.titleNumber
    }

    /** Each PGC of `l` is the one stored under its title number. */
    predicate AllStored(l: seq<ProgramChain>)
      reads this
    {
      forall k :: 0 <= k < |l| ==> Title(l[k].titleNumber) == Some(l[k])
    }

    /** `numbers` holds the title numbers of `l`, all of them stored ones. */
    ghost predicate Visited(l: seq<ProgramChain>, numbers: set<int>)
      reads this
    {
      numbers <= StoredNumbers() && forall k :: 0 <= k < |l| ==> l[k].titleNumber in numbers
    }

    /**
     * allTitles: the titles played in sequence with title `titleNumber`:
     * its chain of previous titles, itself, then its chain of next titles,
     * each title at most once.
     */
    method AllTitles(titleNumber: int) returns (result: seq<ProgramChain>, ghost mainIndex: int)
      requires TitlesIndexed()
      ensures Title(titleNumber).None? ==> result == []
      ensures Title(titleNumber).Some? ==> 0 <= mainIndex < |result| && result[mainIndex] == Title(titleNumber).value
      ensures AllStored(result) && DistinctTitles(result)
      ensures forall k :: 0 <= k < mainIndex && k + 1 < |result| ==> result[k].titleNumber == result[k + 1].previousPgc
      ensures forall k :: 0 <= mainIndex <= k && k + 1 < |result| ==> result[k + 1].titleNumber == result[k].nextPgc
    {
      var pgc := Title(titleNumber);
      if pgc.None? {
        return [], 0;
      }
      TitleNumberOf(pgc.value, titleNumber);
      var numbers;
      result, numbers := PreviousTitles(pgc.value);
      mainIndex := |result| - 1;
      result := NextTitles(result, numbers, pgc.value.nextPgc);
    }

    /** The first loop of allTitles: `main` preceded by its chain of previous titles. */
    method PreviousTitles(main: ProgramChain) returns (result: seq<ProgramChain>, numbers: set<int>)
      requires TitlesIndexed() && Title(main.titleNumber) == Some(main)
      ensures |result| > 0 && result[|result| - 1] == main
      ensures AllStored(result) && DistinctTitles(result) && Visited(result, numbers)
      ensures forall k :: 0 <= k < |result| - 1 ==> result[k].titleNumber == result[k + 1].previousPgc
    {
      result := [];
      numbers := {};
      var pgc := Some(main);
      ghost var from := main.titleNumber;
      while pgc.Some? && pgc.value.titleNumber !in numbers
        invariant AllStored(result) && DistinctTitles(result) && Visited(result, numbers)
        invariant forall k :: 0 <= k < |result| - 1 ==> result[k].titleNumber == result[k + 1].previousPgc
        invariant result == [] ==> pgc == Some(main) && numbers == {}
        invariant result != [] ==> result[|result| - 1] == main && from == result[0].previousPgc
        invariant pgc == Title(from)
        decreases StoredNumbers() - numbers
      {
        var p := pgc.value;
        TitleNumberOf(p, from);
        PrependLink(p, result);
        result := [p] + result;
        numbers := numbers + {p.titleNumber};
        pgc := Title(p.previousPgc);
        from := p.previousPgc;
      }
    }

    /** The second loop of allTitles: `prefix` followed by the chain of next titles from `next`. */
    method NextTitles(prefix: seq<ProgramChain>, numbers: set<int>, next: int) returns (result: seq<ProgramChain>)
      requires TitlesIndexed() && |prefix| > 0 && prefix[|prefix| - 1].nextPgc == next
      requires AllStored(prefix) && DistinctTitles(prefix) && Visited(prefix, numbers)
      ensures |prefix| <= |result| && result[..|prefix|] == prefix
      ensures AllStored(result) && DistinctTitles(result)
      ensures forall k :: |prefix| - 1 <= k && k + 1 < |result| ==> result[k + 1].titleNumber == result[k].nextPgc
    {
      result := prefix;
      var visited := numbers;
      var pgc := Title(next);
      ghost var from := next;
      while pgc.Some? && pgc.value.titleNumber !in visited
        invariant |prefix| <= |result| && result[..|prefix|] == prefix
        invariant AllStored(result) && DistinctTitles(result) && Visited(result, visited)
        invariant forall k :: |prefix| - 1 <= k && k + 1 < |result| ==> result[k + 1].titleNumber == result[k].nextPgc
        invariant from == result[|result| - 1].nextPgc && pgc == Title(from)
        decreases StoredNumbers() - visited
      {
        var p := pgc.value;
        TitleNumberOf(p, from);
        result := result + [p];
        visited := visited + {p.titleNumber};
        pgc := Title(p.nextPgc);
        from := p.nextPgc;
      }
    }

    /** A PGC found by title(n) carries the title number n. */
    lemma TitleNumberOf(p: ProgramChain, n: int)
      requires TitlesIndexed() && Title(n) == Some(p)
      ensures p.titleNumber == n && Title(p.titleNumber) == Some(p)
      ensures p.titleNumber in StoredNumbers()
    {
      assert pgcs[n - 1] == Some(p);
    }
  }

  /** No title number occurs twice in `l`. */
  predicate DistinctTitles(l: seq<ProgramChain>)
  {
    forall j, k :: 0 <= j < k < |l| ==> l[j].titleNumber != l[k].titleNumber
  }

  /** A title whose number is new and which `l` names as previous extends the chain backwards. */
  lemma PrependLink(p: ProgramChain, l: seq<ProgramChain>)
    requires DistinctTitles(l) && forall k :: 0 <= k < |l| ==> l[k].titleNumber != p.titleNumber
    requires forall k :: 0 <= k < |l| - 1 ==> l[k].titleNumber == l[k + 1].previousPgc
    requires l != [] ==> p.titleNumber == l[0].previousPgc
    ensures DistinctTitles([p] + l)
    ensures forall k :: 0 <= k < |l| ==> ([p] + l)[k].titleNumber == ([p] + l)[k + 1].previousPgc
  {
    var r := [p] + l;
    forall j, k | 0 <= j < k < |r|
      ensures r[j].titleNumber != r[k].titleNumber
    {
      if j > 0 {
        assert r[j] == l[j - 1] && r[k] == l[k - 1];
      } else {
        assert r[k] == l[k - 1];
      }
    }
  }

  // ---------------------------------------------------------------------
  // Stream ordering
  // ---------------------------------------------------------------------

  /** The declaration order of the stream types: Video < Audio < Subtitle < Other. */
  function TypeRank(t: StreamType): int
  {
    match t
    case Video => 0
    case Audio => 1
    case Subtitle => 2
    case Other => 3
  }

  /** The key on which streams of the same type are ordered: audio ids by their low 3 bits. */
  function OrderId(s: StreamInfo): int
  {
    if s.streamType == Audio then s.streamId % 8 else s.streamId
  }

  /**
   * lessThan: the order of the streams on a DVD. A null stream is least;
   * otherwise by stream type, then by stream id (the index bits of audio ids).
   */
  function LessThan(p1: Option<StreamInfo>, p2: Option<StreamInfo>): bool
  {
    if p1.None? || p2.None? then p2.Some?
    else if p1.value.streamType != p2.value.streamType then TypeRank(p1.value.streamType) < TypeRank(p2.value.streamType)
    else OrderId(p1.value) < OrderId(p2.value)
  }

  /** lessThan is a strict order: irreflexive and transitive (so suitable for sorting). */
  lemma LessThanStrictOrder(a: Option<StreamInfo>, b: Option<StreamInfo>, c: Option<StreamInfo>)
    ensures !LessThan(a, a)
    ensures LessThan(a, b) ==> !LessThan(b, a)
    ensures LessThan(a, b) && LessThan(b, c) ==> LessThan(a, c)
  {
  }

  /**
   * Streams read from the same IFO sort in IFO order within their type: the
   * subpictures by index and, when their coding modes are known, the audio
   * streams by index.
   */
  lemma IfoStreamsInOrder(ifo: seq<byte>, i: nat, j: nat)
    requires |ifo| >= IfoHeaderSize && i < j
    ensures j < SubpicMaxCount ==> LessThan(Some(SubpicStream(ifo, i)), Some(SubpicStream(ifo, j)))
    ensures j < AudioMaxCount && AudioStream(ifo, i).streamId >= 0 && AudioStream(ifo, j).streamId >= 0 ==>
      LessThan(Some(AudioStream(ifo, i)), Some(AudioStream(ifo, j)))
    ensures j < AudioMaxCount ==> LessThan(Some(VideoStream(ifo)), Some(AudioStream(ifo, i)))
  {
    if j < AudioMaxCount && AudioStream(ifo, i).streamId >= 0 && AudioStream(ifo, j).streamId >= 0 {
      AudioIdIndex(ifo[AudioAttrOffset + AudioAttrSize * i] / 32, i);
      AudioIdIndex(ifo[AudioAttrOffset + AudioAttrSize * j] / 32, j);
    }
  }

  /** A known audio stream id carries the stream index in its low 3 bits. */
  lemma AudioIdIndex(codingMode: int, i: nat)
    requires i < AudioMaxCount && AudioStreamId(codingMode, i) >= 0
    ensures AudioStreamId(codingMode, i) % 8 == i
  {
  }
}
