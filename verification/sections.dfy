/**
 * MPEG-2 PSI sections (ISO/IEC 13818-1, section 2.4.4): the byte layout of
 * short and long sections, the checks a section must pass to be valid, the
 * header fields read back from the bytes and the in-place header patches.
 * A section object is described here by its state; the class that updates
 * it in place is in module SectionClass.
 */
module Sections {
  import opened Bytes

  const ShortHeaderSize := 3
  const LongHeaderSize := 8
  const CrcSize := 4
  const MaxSectionSize := 4096
  const MinLongSectionSize := LongHeaderSize + CrcSize
  const NullPid := 0x1FFF

  /** What initialize does with the CRC32 of a long section. */
  datatype Validation = Check | Compute | Ignore

  /** The CRC32 of a byte sequence (the CRC routine QtsCrc32 is not part of this model). */
  type Crc32 = seq<byte> -> nat

  /**
   * The fields of a QtsSection. `firstPkt` and `lastPkt` are the indices of
   * the packets that carried the section.
   */
  datatype SectionState = SectionState(isValid: bool, sourcePid: int, firstPkt: int, lastPkt: int, data: seq<byte>)

  /** The state of an empty, invalid section (initialize(pid) and clear()). */
  function Cleared(pid: int): (s: SectionState)
    ensures !s.isValid && s.data == [] && s.sourcePid == pid
  {
    SectionState(false, pid, 0, 0, [])
  }

  // ---------------------------------------------------------------------
  // Header fields in raw bytes
  // ---------------------------------------------------------------------

  /** The 12-bit section_length field: the number of bytes after it. */
  function LengthField(d: seq<byte>): nat
  {
    (At(d, 1) % 16) * 256 + At(d, 2)
  }

  /** The section_syntax_indicator bit: a long header. */
  predicate LongBit(d: seq<byte>)
  {
    At(d, 1) >= 0x80
  }

  /** The private_indicator bit. */
  predicate PrivateBit(d: seq<byte>)
  {
    (At(d, 1) / 0x40) % 2 == 1
  }

  /** The size limits and the length field agree with the data. */
  predicate HeaderOk(d: seq<byte>)
  {
    ShortHeaderSize <= |d| <= MaxSectionSize && LengthField(d) == |d| - ShortHeaderSize
  }

  /**
   * The shape every valid section keeps: a consistent length and, for a
   * long header, room for the header and the CRC32.
   */
  predicate Shaped(d: seq<byte>)
  {
    HeaderOk(d) && (LongBit(d) ==> |d| >= MinLongSectionSize)
  }

  /** The CRC32 of everything before the CRC field. */
  function CrcOf(d: seq<byte>, crc: Crc32): (r: nat)
    requires |d| >= CrcSize
    ensures r < Two32
  {
    U32(crc(d[..|d| - CrcSize]))
  }

  /** The CRC32 field matches the data it covers. */
  predicate CrcOk(d: seq<byte>, crc: Crc32)
    requires |d| >= CrcSize
  {
    BE32(d, |d| - CrcSize) == CrcOf(d, crc)
  }

  /** recomputeCrc32 on the bytes: the last four bytes replaced by the CRC32 of the others. */
  function WithCrc(d: seq<byte>, crc: Crc32): (r: seq<byte>)
    requires |d| >= CrcSize
    ensures |r| == |d| && r[..|d| - CrcSize] == d[..|d| - CrcSize]
    ensures CrcOk(r, crc)
  {
    var body := d[..|d| - CrcSize];
    var r := body + EncodeBE32(CrcOf(d, crc));
    assert r[..|d| - CrcSize] == body;
    assert r[|d| - CrcSize..] == EncodeBE32(CrcOf(d, crc));
    r
  }

  // ---------------------------------------------------------------------
  // Accessors of a section
  // ---------------------------------------------------------------------

  /** tableId(): 0xFF for an invalid section. */
  function TableId(s: SectionState): byte
  {
    if s.isValid then At(s.data, 0) else 0xFF
  }

  predicate IsLongSection(s: SectionState)
  {
    s.isValid && LongBit(s.data)
  }

  predicate IsShortSection(s: SectionState)
  {
    s.isValid && !LongBit(s.data)
  }

  predicate IsPrivateSection(s: SectionState)
  {
    s.isValid && PrivateBit(s.data)
  }

  /** The 16-bit table id extension, 0 for a short section. */
  function TableIdExtension(s: SectionState): nat
  {
    if IsLongSection(s) then BE16(s.data, 3) else 0
  }

  /** The 5-bit version_number, bits 1..5 of byte 5; 0 for a short section. */
  function Version(s: SectionState): nat
  {
    if IsLongSection(s) then (At(s.data, 5) / 2) % 32 else 0
  }

  /** The current_next_indicator, bit 0 of byte 5. */
  predicate IsCurrent(s: SectionState)
  {
    IsLongSection(s) && At(s.data, 5) % 2 == 1
  }

  function SectionNumber(s: SectionState): byte
  {
    if IsLongSection(s) then At(s.data, 6) else 0
  }

  function LastSectionNumber(s: SectionState): byte
  {
    if IsLongSection(s) then At(s.data, 7) else 0
  }

  function HeaderSize(s: SectionState): nat
  {
    if !s.isValid then 0 else if IsLongSection(s) then LongHeaderSize else ShortHeaderSize
  }

  /** payloadSize(): the bytes between the header and the CRC32 of a long section. */
  function PayloadSize(s: SectionState): int
  {
    if !s.isValid then 0
    else if IsLongSection(s) then |s.data| - LongHeaderSize - CrcSize
    else |s.data| - ShortHeaderSize
  }

  function Payload(s: SectionState): (r: seq<byte>)
    requires s.isValid ==> Shaped(s.data)
    ensures |r| == PayloadSize(s)
  {
    if !s.isValid then [] else s.data[HeaderSize(s)..HeaderSize(s) + PayloadSize(s)]
  }

  /** The invariant of a section object: an invalid one holds no data, a valid one is shaped. */
  predicate Consistent(s: SectionState)
  {
    (s.isValid ==> Shaped(s.data)) && (!s.isValid ==> s.data == [])
  }

  // ---------------------------------------------------------------------
  // initialize(content, pid, validation)
  // ---------------------------------------------------------------------

  /**
   * initialize as written: a long header is only examined when the data
   * has at least 12 bytes, and a shorter one passes unexamined.
   */
  function InitializeAsWritten(content: seq<byte>, pid: int, validation: Validation, crc: Crc32): SectionState
  {
    var headerOk := HeaderOk(content);
    var isLong := headerOk && LongBit(content) && |content| >= MinLongSectionSize;
    var valid := headerOk && (isLong ==> content[6] <= content[7])
                 && (isLong && validation == Check ==> CrcOk(content, crc));
    if !valid then Cleared(pid)
    else SectionState(true, pid, 0, 0, if isLong && validation == Compute then WithCrc(content, crc) else content)
  }

  /**
   * initialize, corrected: a section whose header says it is long must hold
   * a long header and a CRC32. Otherwise as written: the size and length
   * checks, section_number <= last_section_number, and the CRC32 checked,
   * recomputed or ignored.
   */
  function Initialize(content: seq<byte>, pid: int, validation: Validation, crc: Crc32): (s: SectionState)
    ensures Consistent(s) && s.sourcePid == pid
  {
    var headerOk := Shaped(content);
    var isLong := headerOk && LongBit(content);
    var valid := headerOk && (isLong ==> content[6] <= content[7])
                 && (isLong && validation == Check ==> CrcOk(content, crc));
    if !valid then Cleared(pid)
    else SectionState(true, pid, 0, 0, if isLong && validation == Compute then WithCrc(content, crc) else content)
  }

  /**
   * What makes initialize accept a content, both ways, and what it then
   * holds: the content itself, with a fresh CRC32 under Compute.
   */
  lemma InitializeAccepts(content: seq<byte>, pid: int, validation: Validation, crc: Crc32)
    ensures var s := Initialize(content, pid, validation, crc);
      s.isValid <==> Shaped(content)
                     && (LongBit(content) ==> SectionNumberOf(content) <= LastSectionNumberOf(content))
                     && (LongBit(content) && validation == Check ==> CrcOk(content, crc))
    ensures var s := Initialize(content, pid, validation, crc);
      s.isValid ==> (s.data == content || (validation == Compute && LongBit(content) && s.data == WithCrc(content, crc)))
    ensures var s := Initialize(content, pid, validation, crc);
      s.isValid && LongBit(content) && validation != Ignore ==> CrcOk(s.data, crc)
  {
  }

  function SectionNumberOf(d: seq<byte>): byte
  {
    At(d, 6)
  }

  function LastSectionNumberOf(d: seq<byte>): byte
  {
    At(d, 7)
  }

  /**
   * The content [0x00, 0x80, 0x00]: a 3-byte section whose header claims to
   * be long. As written it is accepted, and the accessors then read it as a
   * long section with a negative payload size; corrected, it is rejected.
   */
  lemma ShortLongSectionAccepted(pid: int, validation: Validation, crc: Crc32)
    ensures var s := InitializeAsWritten([0x00, 0x80, 0x00], pid, validation, crc);
      s.isValid && IsLongSection(s) && PayloadSize(s) < 0
    ensures !Initialize([0x00, 0x80, 0x00], pid, validation, crc).isValid
  {
    var d: seq<byte> := [0x00, 0x80, 0x00];
    assert LengthField(d) == 0;
  }

  /** Every section the corrected initialize accepts has a payload inside its data. */
  lemma InitializedPayloadFits(content: seq<byte>, pid: int, validation: Validation, crc: Crc32)
    ensures var s := Initialize(content, pid, validation, crc);
      0 <= PayloadSize(s) && HeaderSize(s) + PayloadSize(s) <= |s.data|
  {
  }

  // ---------------------------------------------------------------------
  // reload: building a section
  // ---------------------------------------------------------------------

  /** The 16-bit word after the table id: flags and the 12-bit length. */
  function FlagsAndLength(long: bool, isPrivate: bool, length: nat): (r: nat)
    requires length < 0x1000
    ensures r < Two16
  {
    (if long then 0x8000 else 0) + (if isPrivate then 0x4000 else 0) + 0x3000 + length % 0x1000
  }

  /** The bytes of a short section (reload without a long header). */
  function ShortSection(tid: byte, isPrivate: bool, payload: seq<byte>): seq<byte>
    requires ShortHeaderSize + |payload| <= MaxSectionSize
  {
    [tid] + EncodeBE16(FlagsAndLength(false, isPrivate, |payload|)) + payload
  }

  /** The byte holding the 0b11 reserved bits, the version and current_next_indicator. */
  function VersionByte(version: byte, isCurrent: bool): byte
  {
    0xC0 + (version % 32) * 2 + (if isCurrent then 1 else 0)
  }

  /** The bytes of a long section before its CRC32 is computed. */
  function LongSectionBody(tid: byte, isPrivate: bool, tidExt: int, version: byte, isCurrent: bool,
                           sectionNumber: byte, lastSectionNumber: byte, payload: seq<byte>): (r: seq<byte>)
    requires 0 <= tidExt < Two16
    requires LongHeaderSize + |payload| + CrcSize <= MaxSectionSize
    ensures |r| == LongHeaderSize + |payload| + CrcSize
  {
    [tid] + EncodeBE16(FlagsAndLength(true, isPrivate, LongHeaderSize - 3 + |payload| + CrcSize))
    + EncodeBE16(tidExt) + [VersionByte(version, isCurrent), sectionNumber, lastSectionNumber]
    + payload + [0, 0, 0, 0]
  }

  /** The bytes of a long section, CRC32 included (reload with a long header). */
  function LongSection(tid: byte, isPrivate: bool, tidExt: int, version: byte, isCurrent: bool,
                       sectionNumber: byte, lastSectionNumber: byte, payload: seq<byte>, crc: Crc32): seq<byte>
    requires 0 <= tidExt < Two16
    requires LongHeaderSize + |payload| + CrcSize <= MaxSectionSize
  {
    WithCrc(LongSectionBody(tid, isPrivate, tidExt, version, isCurrent, sectionNumber, lastSectionNumber, payload), crc)
  }

  /** reload(tid, isPrivate, payload, pid): a short section, if the payload fits. */
  function ReloadShort(tid: byte, isPrivate: bool, payload: seq<byte>, pid: int): (s: SectionState)
    ensures s.isValid <==> ShortHeaderSize + |payload| <= MaxSectionSize
  {
    if ShortHeaderSize + |payload| <= MaxSectionSize
    then SectionState(true, pid, 0, 0, ShortSection(tid, isPrivate, payload))
    else Cleared(pid)
  }

  /** reload with a long header: refused for a section number above the last, a version above 31 or a payload too big. */
  function ReloadLong(tid: byte, isPrivate: bool, tidExt: int, version: byte, isCurrent: bool,
                      sectionNumber: byte, lastSectionNumber: byte, payload: seq<byte>, pid: int, crc: Crc32): (s: SectionState)
    requires 0 <= tidExt < Two16
    ensures s.isValid <==> sectionNumber <= lastSectionNumber && version <= 31
                           && LongHeaderSize + |payload| + CrcSize <= MaxSectionSize
  {
    if sectionNumber <= lastSectionNumber && version <= 31 && LongHeaderSize + |payload| + CrcSize <= MaxSectionSize
    then SectionState(true, pid, 0, 0, LongSection(tid, isPrivate, tidExt, version, isCurrent, sectionNumber, lastSectionNumber, payload, crc))
    else Cleared(pid)
  }

  /**
   * A short section built by reload reads back what it was built from, and
   * initialize accepts its bytes unchanged under every validation mode.
   */
  lemma ShortSectionRoundTrip(tid: byte, isPrivate: bool, payload: seq<byte>, pid: int, validation: Validation, crc: Crc32)
    requires ShortHeaderSize + |payload| <= MaxSectionSize
    ensures var s := ReloadShort(tid, isPrivate, payload, pid);
      Consistent(s) && IsShortSection(s) && TableId(s) == tid && IsPrivateSection(s) == isPrivate
      && Payload(s) == payload && Initialize(s.data, pid, validation, crc) == s
  {
    var d := ShortSection(tid, isPrivate, payload);
    var w := FlagsAndLength(false, isPrivate, |payload|);
    assert d[1] == w / 256 && d[2] == w % 256;
    FlagsAndLengthFields(false, isPrivate, |payload|);
    var h: seq<byte> := [0, w / 256, w % 256];
    assert LengthField(d) == LengthField(h) && LongBit(d) == LongBit(h) && PrivateBit(d) == PrivateBit(h);
    assert d[3..] == payload;
  }

  /**
   * A long section built by reload reads back every header field it was
   * built from, and initialize accepts its bytes unchanged, its CRC32
   * checked.
   */
  lemma LongSectionRoundTrip(tid: byte, isPrivate: bool, tidExt: int, version: byte, isCurrent: bool,
                             sectionNumber: byte, lastSectionNumber: byte, payload: seq<byte>, pid: int, crc: Crc32)
    requires 0 <= tidExt < Two16 && sectionNumber <= lastSectionNumber && version <= 31
    requires LongHeaderSize + |payload| + CrcSize <= MaxSectionSize
    ensures var s := ReloadLong(tid, isPrivate, tidExt, version, isCurrent, sectionNumber, lastSectionNumber, payload, pid, crc);
      Consistent(s) && IsLongSection(s) && TableId(s) == tid && IsPrivateSection(s) == isPrivate
      && TableIdExtension(s) == tidExt && Version(s) == version && IsCurrent(s) == isCurrent
      && SectionNumber(s) == sectionNumber && LastSectionNumber(s) == lastSectionNumber
      && Payload(s) == payload && Initialize(s.data, pid, Check, crc) == s
  {
    var body := LongSectionBody(tid, isPrivate, tidExt, version, isCurrent, sectionNumber, lastSectionNumber, payload);
    var d := WithCrc(body, crc);
    LongBodyFields(tid, isPrivate, tidExt, version, isCurrent, sectionNumber, lastSectionNumber, payload);
    assert d[..8] == body[..8] by {
      assert d[..|d| - CrcSize][..8] == body[..|d| - CrcSize][..8];
    }
    assert d[8..8 + |payload|] == payload by {
      assert d[..|d| - CrcSize][8..] == body[..|d| - CrcSize][8..];
    }
    assert At(d, 5) == At(body, 5) && At(d, 6) == At(body, 6) && At(d, 7) == At(body, 7);
    assert BE16(d, 3) == BE16(body, 3) && At(d, 0) == At(body, 0) && At(d, 1) == At(body, 1) && At(d, 2) == At(body, 2);
  }

  /** The two bytes of FlagsAndLength carry back both flags and the length. */
  lemma FlagsAndLengthFields(long: bool, isPrivate: bool, length: nat)
    requires length < 0x1000
    ensures var w := FlagsAndLength(long, isPrivate, length);
      var d := [0, w / 256, w % 256];
      LengthField(d) == length && (LongBit(d) <==> long) && (PrivateBit(d) <==> isPrivate)
  {
    var flags := (if long then 2 else 0) + (if isPrivate then 1 else 0);
    var top := length / 256;
    var lo := length % 256;
    DivUnique(length, top, lo, 256);
    var hi := flags * 64 + 0x30 + top;
    var w := FlagsAndLength(long, isPrivate, length);
    assert length % 0x1000 == length;
    assert w == hi * 256 + lo;
    DivUnique(w, hi, lo, 256);
    HighFlagsByte(flags, top, hi);
    var d := [0, w / 256, w % 256];
    assert At(d, 1) == hi && At(d, 2) == lo;
  }

  /** The high byte of FlagsAndLength: the two flags, two reserved bits set, and the top four bits of the length. */
  lemma HighFlagsByte(flags: int, top: int, hi: int)
    requires 0 <= flags < 4 && 0 <= top < 16 && hi == flags * 64 + 0x30 + top
    ensures hi % 16 == top && (hi >= 0x80 <==> flags >= 2) && ((hi / 0x40) % 2 == 1 <==> flags % 2 == 1)
  {
    DivUnique(hi, flags * 4 + 3, top, 16);
    DivUnique(hi, flags, 0x30 + top, 64);
  }

  /**
   * The long section reload builds: its header and payload, then the CRC32
   * recomputed over them.
   */
  lemma ReloadLongBuilt(tid: byte, isPrivate: bool, tidExt: int, version: byte, isCurrent: bool,
                        sectionNumber: byte, lastSectionNumber: byte, payload: seq<byte>, pid: int, crc: Crc32)
    requires 0 <= tidExt < Two16 && sectionNumber <= lastSectionNumber && version <= 31
    requires LongHeaderSize + |payload| + CrcSize <= MaxSectionSize
    ensures var built := SectionState(true, pid, 0, 0, LongSectionBody(tid, isPrivate, tidExt, version, isCurrent, sectionNumber, lastSectionNumber, payload));
      Consistent(built) && IsLongSection(built)
      && RecomputeCrc(built, crc) == ReloadLong(tid, isPrivate, tidExt, version, isCurrent, sectionNumber, lastSectionNumber, payload, pid, crc)
  {
    LongBodyFields(tid, isPrivate, tidExt, version, isCurrent, sectionNumber, lastSectionNumber, payload);
  }

  /** The version byte carries back the 5-bit version and current_next_indicator. */
  lemma VersionByteFields(version: byte, isCurrent: bool)
    requires version <= 31
    ensures var b := VersionByte(version, isCurrent);
      (b / 2) % 32 == version && (b % 2 == 1 <==> isCurrent)
  {
    var c := if isCurrent then 1 else 0;
    assert VersionByte(version, isCurrent) == (0x60 + version) * 2 + c;
  }

  /** The header of a long section body, field by field. */
  lemma LongBodyFields(tid: byte, isPrivate: bool, tidExt: int, version: byte, isCurrent: bool,
                       sectionNumber: byte, lastSectionNumber: byte, payload: seq<byte>)
    requires 0 <= tidExt < Two16 && version <= 31
    requires LongHeaderSize + |payload| + CrcSize <= MaxSectionSize
    ensures var b := LongSectionBody(tid, isPrivate, tidExt, version, isCurrent, sectionNumber, lastSectionNumber, payload);
      At(b, 0) == tid && LongBit(b) && PrivateBit(b) == isPrivate && LengthField(b) == |b| - 3
      && BE16(b, 3) == tidExt && (At(b, 5) / 2) % 32 == version && (At(b, 5) % 2 == 1 <==> isCurrent)
      && At(b, 6) == sectionNumber && At(b, 7) == lastSectionNumber && b[8..8 + |payload|] == payload
  {
    var b := LongSectionBody(tid, isPrivate, tidExt, version, isCurrent, sectionNumber, lastSectionNumber, payload);
    var length := LongHeaderSize - 3 + |payload| + CrcSize;
    var w := FlagsAndLength(true, isPrivate, length);
    var e := EncodeBE16(tidExt);
    assert b[1] == w / 256 && b[2] == w % 256;
    FlagsAndLengthFields(true, isPrivate, length);
    var h: seq<byte> := [0, w / 256, w % 256];
    assert LengthField(b) == LengthField(h) && LongBit(b) == LongBit(h) && PrivateBit(b) == PrivateBit(h);
    assert b[3] == e[0] && b[4] == e[1];
    assert b[5] == VersionByte(version, isCurrent);
    VersionByteFields(version, isCurrent);
    assert b[8..8 + |payload|] == payload;
  }

  // ---------------------------------------------------------------------
  // Setters: in-place patches of the header
  // ---------------------------------------------------------------------

  /** recomputeCrc32: a long section gets a fresh CRC32; anything else is left alone. */
  function RecomputeCrc(s: SectionState, crc: Crc32): (r: SectionState)
    requires Consistent(s)
    ensures Consistent(r)
  {
    if IsLongSection(s) then s.(data := WithCrc(s.data, crc)) else s
  }

  /** The CRC32 is recomputed only on request. */
  function MaybeRecompute(s: SectionState, recompute: bool, crc: Crc32): (r: SectionState)
    requires Consistent(s)
    ensures Consistent(r)
  {
    if recompute then RecomputeCrc(s, crc) else s
  }

  /**
   * byte 5 with bits 1..5 replaced by the low five bits of the version:
   * (b & 0xC1) | ((version & 0x1F) << 1).
   */
  function PatchVersion(b: byte, version: byte): byte
  {
    b - ((b / 2) % 32) * 2 + (version % 32) * 2
  }

  /** The version lands in bits 1..5; bit 0 and bits 6..7 are kept. */
  lemma PatchVersionBits(b: byte, version: byte)
    ensures var p := PatchVersion(b, version);
      (p / 2) % 32 == version % 32 && p / 64 == b / 64 && p % 2 == b % 2
  {
    var h, m, c := b / 64, (b / 2) % 32, b % 2;
    assert b == 64 * h + 2 * m + c;
    var p := PatchVersion(b, version);
    assert p == 64 * h + 2 * (version % 32) + c;
  }

  /** byte 5 with bit 0 replaced by current_next_indicator: (b & 0xFE) | isCurrent. */
  function PatchCurrent(b: byte, isCurrent: bool): byte
  {
    b - b % 2 + (if isCurrent then 1 else 0)
  }

  /** Changing one header byte of a long section keeps its shape. */
  lemma PatchKeepsShape(d: seq<byte>, i: nat, v: byte)
    requires Shaped(d) && LongBit(d) && 3 <= i < LongHeaderSize
    ensures Shaped(d[i := v]) && LongBit(d[i := v]) && PrivateBit(d[i := v]) == PrivateBit(d)
    ensures At(d[i := v], 0) == At(d, 0)
  {
    assert At(d[i := v], 1) == At(d, 1) && At(d[i := v], 2) == At(d, 2);
  }

  function SetTableIdExtension(s: SectionState, tidExt: int, recompute: bool, crc: Crc32): (r: SectionState)
    requires Consistent(s) && 0 <= tidExt < Two16
    ensures Consistent(r)
  {
    if !IsLongSection(s) then s
    else
      var e := EncodeBE16(tidExt);
      PatchKeepsShape(s.data, 3, e[0]);
      PatchKeepsShape(s.data[3 := e[0]], 4, e[1]);
      MaybeRecompute(s.(data := s.data[3 := e[0]][4 := e[1]]), recompute, crc)
  }

  function SetVersion(s: SectionState, version: byte, recompute: bool, crc: Crc32): (r: SectionState)
    requires Consistent(s)
    ensures Consistent(r)
  {
    if !IsLongSection(s) then s
    else
      PatchKeepsShape(s.data, 5, PatchVersion(s.data[5], version));
      MaybeRecompute(s.(data := s.data[5 := PatchVersion(s.data[5], version)]), recompute, crc)
  }

  function SetIsCurrent(s: SectionState, isCurrent: bool, recompute: bool, crc: Crc32): (r: SectionState)
    requires Consistent(s)
    ensures Consistent(r)
  {
    if !IsLongSection(s) then s
    else
      PatchKeepsShape(s.data, 5, PatchCurrent(s.data[5], isCurrent));
      MaybeRecompute(s.(data := s.data[5 := PatchCurrent(s.data[5], isCurrent)]), recompute, crc)
  }

  function SetSectionNumber(s: SectionState, num: byte, recompute: bool, crc: Crc32): (r: SectionState)
    requires Consistent(s)
    ensures Consistent(r)
  {
    if !IsLongSection(s) then s
    else
      PatchKeepsShape(s.data, 6, num);
      MaybeRecompute(s.(data := s.data[6 := num]), recompute, crc)
  }

  function SetLastSectionNumber(s: SectionState, num: byte, recompute: bool, crc: Crc32): (r: SectionState)
    requires Consistent(s)
    ensures Consistent(r)
  {
    if !IsLongSection(s) then s
    else
      PatchKeepsShape(s.data, 7, num);
      MaybeRecompute(s.(data := s.data[7 := num]), recompute, crc)
  }

  /** Recomputing the CRC32 changes no header field and no payload byte. */
  lemma RecomputeKeepsFields(s: SectionState, recompute: bool, crc: Crc32)
    requires Consistent(s)
    ensures var r := MaybeRecompute(s, recompute, crc);
      r.isValid == s.isValid && r.sourcePid == s.sourcePid && |r.data| == |s.data|
      && TableId(r) == TableId(s) && IsLongSection(r) == IsLongSection(s) && IsPrivateSection(r) == IsPrivateSection(s)
      && TableIdExtension(r) == TableIdExtension(s) && Version(r) == Version(s) && IsCurrent(r) == IsCurrent(s)
      && SectionNumber(r) == SectionNumber(s) && LastSectionNumber(r) == LastSectionNumber(s)
      && Payload(r) == Payload(s)
    ensures IsLongSection(s) && recompute ==> CrcOk(MaybeRecompute(s, recompute, crc).data, crc)
  {
    if IsLongSection(s) && recompute {
      var t := MaybeRecompute(s, recompute, crc);
      assert t == s.(data := WithCrc(s.data, crc));
      SameBodySameFields(s, t);
    } else {
      assert MaybeRecompute(s, recompute, crc) == s;
    }
  }

  /** Two long sections that differ at most in their CRC32 field have the same header fields and payload. */
  lemma SameBodySameFields(s: SectionState, t: SectionState)
    requires Consistent(s) && IsLongSection(s) && t.isValid && t.sourcePid == s.sourcePid && |t.data| == |s.data|
    requires t.data[..|s.data| - CrcSize] == s.data[..|s.data| - CrcSize]
    ensures Shaped(t.data)
    ensures TableId(t) == TableId(s) && IsLongSection(t) && IsPrivateSection(t) == IsPrivateSection(s)
    ensures TableIdExtension(t) == TableIdExtension(s) && Version(t) == Version(s) && IsCurrent(t) == IsCurrent(s)
    ensures SectionNumber(t) == SectionNumber(s) && LastSectionNumber(t) == LastSectionNumber(s)
    ensures Payload(t) == Payload(s)
  {
    var n := |s.data| - CrcSize;
    forall k | 0 <= k < n
      ensures t.data[k] == s.data[k]
    {
      assert t.data[..n][k] == s.data[..n][k];
    }
    assert t.data[8..n] == s.data[8..n];
  }

  /**
   * setVersion changes only bits 1..5 of byte 5 and acts on long sections
   * only: the version reads back as its low five bits, while the other
   * fields and the payload are kept.
   */
  lemma SetVersionOnlyVersion(s: SectionState, version: byte, crc: Crc32)
    requires Consistent(s)
    ensures var r := SetVersion(s, version, false, crc);
      (IsLongSection(s) ==> Version(r) == version % 32 && r.data == s.data[5 := r.data[5]]
                            && r.data[5] / 64 == s.data[5] / 64 && r.data[5] % 2 == s.data[5] % 2)
      && (!IsLongSection(s) ==> r == s)
      && IsCurrent(r) == IsCurrent(s) && SectionNumber(r) == SectionNumber(s)
      && LastSectionNumber(r) == LastSectionNumber(s) && TableIdExtension(r) == TableIdExtension(s)
  {
    if IsLongSection(s) {
      PatchVersionBits(s.data[5], version);
    }
  }

  /** setIsCurrent changes only bit 0 of byte 5 of a long section. */
  lemma SetIsCurrentOnlyCurrent(s: SectionState, isCurrent: bool, crc: Crc32)
    requires Consistent(s)
    ensures var r := SetIsCurrent(s, isCurrent, false, crc);
      (IsLongSection(s) ==> IsCurrent(r) == isCurrent && r.data == s.data[5 := r.data[5]]
                            && r.data[5] / 2 == s.data[5] / 2)
      && (!IsLongSection(s) ==> r == s)
      && Version(r) == Version(s) && SectionNumber(r) == SectionNumber(s)
  {
  }

  /** setSectionNumber and setLastSectionNumber write their byte of a long section and nothing else. */
  lemma SetSectionNumbers(s: SectionState, num: byte, crc: Crc32)
    requires Consistent(s)
    ensures var r := SetSectionNumber(s, num, false, crc);
      (IsLongSection(s) ==> SectionNumber(r) == num && r.data == s.data[6 := num]) && (!IsLongSection(s) ==> r == s)
      && LastSectionNumber(r) == LastSectionNumber(s) && Version(r) == Version(s)
    ensures var r := SetLastSectionNumber(s, num, false, crc);
      (IsLongSection(s) ==> LastSectionNumber(r) == num && r.data == s.data[7 := num]) && (!IsLongSection(s) ==> r == s)
      && SectionNumber(r) == SectionNumber(s) && Version(r) == Version(s)
  {
  }

  /** setTableIdExtension writes bytes 3 and 4 of a long section and nothing else. */
  lemma SetTableIdExtensionOnlyExtension(s: SectionState, tidExt: int, crc: Crc32)
    requires Consistent(s) && 0 <= tidExt < Two16
    ensures var r := SetTableIdExtension(s, tidExt, false, crc);
      (IsLongSection(s) ==> TableIdExtension(r) == tidExt && r.data[..3] == s.data[..3] && r.data[5..] == s.data[5..])
      && (!IsLongSection(s) ==> r == s)
  {
  }
}
