/**
 * The QtsSection object: a section whose bytes are built by initialize and
 * reload and patched in place by the setters. Each operation is specified
 * by the function of module Sections that computes its new state.
 */
module SectionClass {
  import opened Bytes
  import opened Sections

  class Section {
    var isValid: bool
    var sourcePid: int
    var firstPkt: int
    var lastPkt: int
    var data: seq<byte>

    function State(): SectionState
      reads this
    {
      SectionState(isValid, sourcePid, firstPkt, lastPkt, data)
    }

    ghost predicate Valid()
      reads this
    {
      Consistent(State())
    }

    /** QtsSection(): an invalid section from the null PID. */
    constructor()
      ensures Valid() && State() == Cleared(NullPid)
    {
      isValid, sourcePid, firstPkt, lastPkt, data := false, NullPid, 0, 0, [];
    }

    /** initialize(pid): forget the content and remember the PID. */
    method Reset(pid: int)
      modifies this
      ensures Valid() && State() == Cleared(pid)
    {
      isValid := false;
      sourcePid := pid;
      firstPkt, lastPkt := 0, 0;
      data := [];
    }

    /** clear(): an invalid section from the null PID. */
    method Clear()
      modifies this
      ensures Valid() && State() == Cleared(NullPid)
    {
      Reset(NullPid);
    }

    /**
     * initialize(content, pid, validation): take the content, check its size,
     * its length field and, for a long header, its section numbers and its
     * CRC32; clear it if it is not a valid section.
     */
    method InitializeFrom(content: seq<byte>, pid: int, validation: Validation, crc: Crc32)
      modifies this
      ensures Valid() && State() == Initialize(content, pid, validation, crc)
    {
      Reset(pid);
      var d := content;
      var valid := Shaped(d);
      var isLong := valid && LongBit(d);
      if isLong {
        valid := d[6] <= d[7];
      }
      if isLong && valid {
        match validation {
          case Check => valid := CrcOk(d, crc);
          case Compute => d := WithCrc(d, crc);
          case Ignore =>
        }
      }
      if !valid {
        d := [];
      }
      assert SectionState(valid, pid, 0, 0, d) == Initialize(content, pid, validation, crc);
      isValid, data := valid, d;
    }

    /**
     * reload(tid, isPrivate, payload, pid): a short section, built byte by
     * byte; it reads back the table id, the private flag and the payload.
     */
    method ReloadShort(tid: byte, isPrivate: bool, payload: seq<byte>, pid: int, ghost crc: Crc32)
      modifies this
      ensures Valid() && State() == Sections.ReloadShort(tid, isPrivate, payload, pid)
      ensures isValid ==> IsShortSection(State()) && TableId(State()) == tid
                          && IsPrivateSection(State()) == isPrivate && Payload(State()) == payload
                          && Initialize(data, pid, Check, crc) == State()
    {
      Reset(pid);
      isValid := ShortHeaderSize + |payload| <= MaxSectionSize;
      if isValid {
        data := data + [tid];
        data := data + EncodeBE16(FlagsAndLength(false, isPrivate, |payload|));
        data := data + payload;
        assert State() == Sections.ReloadShort(tid, isPrivate, payload, pid);
        ShortSectionRoundTrip(tid, isPrivate, payload, pid, Check, crc);
      }
    }

    /**
     * reload with a long header: refused unless the section number is at
     * most the last one, the version fits 5 bits and the whole section fits
     * 4096 bytes; otherwise built byte by byte, CRC32 last. The section then
     * reads back every field it was built from and passes its CRC32 check.
     */
    method ReloadLong(tid: byte, isPrivate: bool, tidExt: int, version: byte, isCurrent: bool,
                      sectionNumber: byte, lastSectionNumber: byte, payload: seq<byte>, pid: int, crc: Crc32)
      requires 0 <= tidExt < Two16
      modifies this
      ensures Valid()
      ensures State() == Sections.ReloadLong(tid, isPrivate, tidExt, version, isCurrent, sectionNumber, lastSectionNumber, payload, pid, crc)
      ensures isValid ==> IsLongSection(State()) && TableId(State()) == tid && IsPrivateSection(State()) == isPrivate
                          && TableIdExtension(State()) == tidExt && Version(State()) == version
                          && IsCurrent(State()) == isCurrent && SectionNumber(State()) == sectionNumber
                          && LastSectionNumber(State()) == lastSectionNumber && Payload(State()) == payload
                          && Initialize(data, pid, Check, crc) == State()
    {
      Reset(pid);
      isValid := sectionNumber <= lastSectionNumber && version <= 31
                 && LongHeaderSize + |payload| + CrcSize <= MaxSectionSize;
      if isValid {
        var d := BuildLongBody(tid, isPrivate, tidExt, version, isCurrent, sectionNumber, lastSectionNumber, payload);
        ReloadLongBuilt(tid, isPrivate, tidExt, version, isCurrent, sectionNumber, lastSectionNumber, payload, pid, crc);
        data := d;
        assert State() == SectionState(true, pid, 0, 0, d);
        RecomputeCrc32(crc);
        assert State() == Sections.ReloadLong(tid, isPrivate, tidExt, version, isCurrent, sectionNumber, lastSectionNumber, payload, pid, crc);
        LongSectionRoundTrip(tid, isPrivate, tidExt, version, isCurrent, sectionNumber, lastSectionNumber, payload, pid, crc);
      }
    }

    /** The bytes of a long section as reload appends them, the CRC32 field left zero. */
    static method BuildLongBody(tid: byte, isPrivate: bool, tidExt: int, version: byte, isCurrent: bool,
                                sectionNumber: byte, lastSectionNumber: byte, payload: seq<byte>) returns (d: seq<byte>)
      requires 0 <= tidExt < Two16 && LongHeaderSize + |payload| + CrcSize <= MaxSectionSize
      ensures d == LongSectionBody(tid, isPrivate, tidExt, version, isCurrent, sectionNumber, lastSectionNumber, payload)
    {
      d := [tid];
      d := d + EncodeBE16(FlagsAndLength(true, isPrivate, LongHeaderSize - 3 + |payload| + CrcSize));
      d := d + EncodeBE16(tidExt);
      d := d + [VersionByte(version, isCurrent)];
      d := d + [sectionNumber, lastSectionNumber];
      d := d + payload;
      d := d + [0, 0, 0, 0];
    }

    /** recomputeCrc32: the last four bytes of a long section become the CRC32 of the others. */
    method RecomputeCrc32(crc: Crc32)
      requires Valid()
      modifies this
      ensures Valid() && State() == RecomputeCrc(old(State()), crc)
    {
      if isValid && LongBit(data) {
        var size := |data| - CrcSize;
        data := data[..size] + EncodeBE32(CrcOf(data, crc));
      }
    }

    method SetTableIdExtension(tidExt: int, recomputeCrc: bool, crc: Crc32)
      requires Valid() && 0 <= tidExt < Two16
      modifies this
      ensures Valid() && State() == Sections.SetTableIdExtension(old(State()), tidExt, recomputeCrc, crc)
    {
      if isValid && LongBit(data) {
        var e := EncodeBE16(tidExt);
        PatchKeepsShape(data, 3, e[0]);
        data := data[3 := e[0]];
        PatchKeepsShape(data, 4, e[1]);
        data := data[4 := e[1]];
        if recomputeCrc {
          RecomputeCrc32(crc);
        }
      }
    }

    method SetVersion(version: byte, recomputeCrc: bool, crc: Crc32)
      requires Valid()
      modifies this
      ensures Valid() && State() == Sections.SetVersion(old(State()), version, recomputeCrc, crc)
    {
      if isValid && LongBit(data) {
        PatchKeepsShape(data, 5, PatchVersion(data[5], version));
        data := data[5 := PatchVersion(data[5], version)];
        if recomputeCrc {
          RecomputeCrc32(crc);
        }
      }
    }

    method SetIsCurrent(isCurrent: bool, recomputeCrc: bool, crc: Crc32)
      requires Valid()
      modifies this
      ensures Valid() && State() == Sections.SetIsCurrent(old(State()), isCurrent, recomputeCrc, crc)
    {
      if isValid && LongBit(data) {
        PatchKeepsShape(data, 5, PatchCurrent(data[5], isCurrent));
        data := data[5 := PatchCurrent(data[5], isCurrent)];
        if recomputeCrc {
          RecomputeCrc32(crc);
        }
      }
    }

    method SetSectionNumber(num: byte, recomputeCrc: bool, crc: Crc32)
      requires Valid()
      modifies this
      ensures Valid() && State() == Sections.SetSectionNumber(old(State()), num, recomputeCrc, crc)
    {
      if isValid && LongBit(data) {
        PatchKeepsShape(data, 6, num);
        data := data[6 := num];
        if recomputeCrc {
          RecomputeCrc32(crc);
        }
      }
    }

    method SetLastSectionNumber(num: byte, recomputeCrc: bool, crc: Crc32)
      requires Valid()
      modifies this
      ensures Valid() && State() == Sections.SetLastSectionNumber(old(State()), num, recomputeCrc, crc)
    {
      if isValid && LongBit(data) {
        PatchKeepsShape(data, 7, num);
        data := data[7 := num];
        if recomputeCrc {
          RecomputeCrc32(crc);
        }
      }
    }
  }
}
