/**
 * The QtsTable object: a PSI table assembled from its sections. Sections are
 * held by value here (see "Left out" in the README about shared pointers).
 */
module Tables {
  import opened Bytes
  import opened Sections

  type Slots = seq<Option<SectionState>>

  /** The number of section slots still empty. */
  function CountMissing(slots: Slots): (r: nat)
    ensures r <= |slots|
  {
    if |slots| == 0 then 0 else (if slots[0].None? then 1 else 0) + CountMissing(slots[1..])
  }

  /** totalSize(): the bytes of the present, valid sections. */
  function TotalSizeOf(slots: Slots): nat
  {
    if |slots| == 0 then 0
    else (if slots[0].Some? && slots[0].value.isValid then |slots[0].value.data| else 0) + TotalSizeOf(slots[1..])
  }

  lemma {:induction false} CountMissingAppend(a: Slots, b: Slots)
    ensures CountMissing(a + b) == CountMissing(a) + CountMissing(b)
  {
    if |a| > 0 {
      assert (a + b)[0] == a[0];
      assert (a + b)[1..] == a[1..] + b;
      CountMissingAppend(a[1..], b);
    } else {
      assert a + b == b;
    }
  }

  lemma {:induction false} CountMissingEmpty(n: nat)
    ensures CountMissing(seq(n, _ => None)) == n
  {
    if n > 0 {
      var s: Slots := seq(n, _ => None);
      assert s[1..] == seq(n - 1, _ => None);
      CountMissingEmpty(n - 1);
    }
  }

  /** The count depends only on which slots are empty. */
  lemma {:induction false} CountMissingSamePattern(a: Slots, b: Slots)
    requires |a| == |b| && forall j :: 0 <= j < |a| ==> a[j].Some? == b[j].Some?
    ensures CountMissing(a) == CountMissing(b)
  {
    if |a| > 0 {
      assert forall j :: 0 <= j < |a[1..]| ==> a[1..][j].Some? == b[1..][j].Some? by {
        forall j | 0 <= j < |a[1..]| ensures a[1..][j] == a[j + 1] && b[1..][j] == b[j + 1] { }
      }
      CountMissingSamePattern(a[1..], b[1..]);
    }
  }

  /** Filling an empty slot lowers the count by one; replacing a section keeps it. */
  lemma {:induction false} CountMissingUpdate(slots: Slots, i: nat, x: SectionState)
    requires i < |slots|
    ensures CountMissing(slots[i := Some(x)]) == CountMissing(slots) - (if slots[i].None? then 1 else 0)
  {
    if i > 0 {
      assert slots[i := Some(x)][1..] == slots[1..][i - 1 := Some(x)];
      CountMissingUpdate(slots[1..], i - 1, x);
    } else {
      assert slots[i := Some(x)][1..] == slots[1..];
    }
  }

  /** A valid section that can sit in slot `i` of a table with the given identity. */
  predicate Belongs(s: SectionState, i: int, tid: int, tidExt: int, version: int)
  {
    Consistent(s) && s.isValid && SectionNumber(s) == i && TableId(s) == tid
    && TableIdExtension(s) == tidExt && Version(s) == version
  }

  /** A section held in slot `i` of a table with the given identity and `count` slots. */
  predicate Member(s: SectionState, i: int, tid: int, tidExt: int, version: int, count: int)
  {
    Belongs(s, i, tid, tidExt, version) && (IsLongSection(s) ==> LastSectionNumber(s) == count - 1)
  }

  /** A section given the table's new last section number still belongs in its slot, its payload unchanged. */
  lemma RaiseOne(s: SectionState, i: int, tid: int, tidExt: int, version: int, lsn: byte, crc: Crc32)
    requires Belongs(s, i, tid, tidExt, version)
    ensures var r := SetLastSectionNumber(s, lsn, true, crc);
      Member(r, i, tid, tidExt, version, lsn + 1) && Payload(r) == Payload(s)
  {
    SetSectionNumbers(s, lsn, crc);
    var p := SetLastSectionNumber(s, lsn, false, crc);
    RecomputeKeepsFields(p, true, crc);
    if IsLongSection(s) {
      assert p.data[8..|p.data| - CrcSize] == s.data[8..|s.data| - CrcSize];
    }
  }

  /**
   * The slots of a table whose first `i` present sections have been given
   * the table's last section number, the others as they were.
   */
  ghost predicate RaisedUpTo(slots: Slots, before: Slots, i: int, tid: int, tidExt: int, version: int)
  {
    0 <= i <= |slots| == |before|
    && (forall j :: 0 <= j < |slots| ==> slots[j].Some? == before[j].Some?)
    && (forall j :: i <= j < |slots| ==> slots[j] == before[j])
    && (forall j :: 0 <= j < i && before[j].Some? && Consistent(before[j].value) ==>
          slots[j].Some? && Member(slots[j].value, j, tid, tidExt, version, |slots|)
          && Payload(slots[j].value) == Payload(before[j].value))
  }

  /** Raising the last section number of slot `i` extends the raised prefix by one. */
  lemma RaiseSlot(slots: Slots, before: Slots, i: int, tid: int, tidExt: int, version: int, lsn: byte, crc: Crc32, next: Slots)
    requires RaisedUpTo(slots, before, i, tid, tidExt, version) && i < |slots| == lsn + 1
    requires before[i].Some? ==> Belongs(before[i].value, i, tid, tidExt, version)
    requires next == if slots[i].Some? then slots[i := Some(SetLastSectionNumber(slots[i].value, lsn, true, crc))] else slots
    ensures RaisedUpTo(next, before, i + 1, tid, tidExt, version)
  {
    if slots[i].Some? {
      var s := slots[i].value;
      RaiseOne(s, i, tid, tidExt, version, lsn, crc);
      assert next[i] == Some(SetLastSectionNumber(s, lsn, true, crc)) && slots[i] == before[i];
      forall j | 0 <= j < |next| && j != i
        ensures next[j] == slots[j]
      {
      }
    }
  }

  /** Every section present in `before`, except at `except`, is still present in `after` with the same payload. */
  predicate Kept(before: Slots, after: Slots, except: int)
  {
    forall j :: 0 <= j < |before| && j != except && before[j].Some? && Consistent(before[j].value) ==>
      j < |after| && after[j].Some? && Consistent(after[j].value) && Payload(after[j].value) == Payload(before[j].value)
  }

  /**
   * The bytes of a table's sections: at least a header's worth and at most
   * a maximal section for each present section.
   */
  lemma {:induction false} TotalSizeBounds(slots: Slots)
    requires forall i :: 0 <= i < |slots| && slots[i].Some? ==> Consistent(slots[i].value) && slots[i].value.isValid
    ensures ShortHeaderSize * (|slots| - CountMissing(slots)) <= TotalSizeOf(slots)
            <= MaxSectionSize * (|slots| - CountMissing(slots))
  {
    if |slots| > 0 {
      assert forall i :: 0 <= i < |slots[1..]| && slots[1..][i].Some? ==>
        Consistent(slots[1..][i].value) && slots[1..][i].value.isValid by {
        forall i | 0 <= i < |slots[1..]| ensures slots[1..][i] == slots[i + 1] { }
      }
      TotalSizeBounds(slots[1..]);
    }
  }

  class Table {
    var isValid: bool
    var tid: int
    var tidExt: int
    var version: int
    var sourcePid: int
    var missingCount: int
    var sections: Slots

    /**
     * The table invariant: missingCount counts the empty slots, the table is
     * valid exactly when it has slots and none is empty, and every present
     * section is valid, sits at its section number and shares the table's
     * identity.
     */
    ghost predicate Valid()
      reads this
    {
      Core() && (isValid <==> |sections| > 0 && missingCount == 0)
    }

    /** The invariant without its clause on the validity flag. */
    ghost predicate Core()
      reads this
    {
      |sections| <= 256 && missingCount == CountMissing(sections)
      && forall i :: 0 <= i < |sections| && sections[i].Some? ==>
        Member(sections[i].value, i, tid, tidExt, version, |sections|)
    }

    /** An empty table. */
    constructor()
      ensures Valid() && !isValid && sections == [] && missingCount == 0
      ensures tid == 0xFF && tidExt == 0 && version == 0 && sourcePid == NullPid
    {
      isValid, tid, tidExt, version, sourcePid, missingCount, sections := false, 0xFF, 0, 0, NullPid, 0, [];
    }

    /** clear(): the table becomes empty again, to be rebuilt by addSection. */
    method Clear()
      modifies this
      ensures Valid() && !isValid && sections == [] && missingCount == 0
      ensures tid == 0xFF && tidExt == 0 && version == 0 && sourcePid == NullPid
    {
      isValid, tid, tidExt, version, sourcePid, missingCount, sections := false, 0xFF, 0, 0, NullPid, 0, [];
    }

    /** sectionAt(index): the section in that slot; none outside the table or in an empty slot. */
    function SectionAt(index: int): (r: Option<SectionState>)
      requires Valid()
      reads this
      ensures r.Some? ==> 0 <= index < |sections| && SectionNumber(r.value) == index && r.value.isValid
      ensures r.None? ==> index < 0 || index >= |sections| || sections[index].None?
    {
      if 0 <= index < |sections| then sections[index] else None
    }

    /** totalSize(): the sum of the sizes of the present, valid sections. */
    method TotalSize() returns (size: int)
      requires Valid()
      ensures size == TotalSizeOf(sections)
      ensures ShortHeaderSize * (|sections| - missingCount) <= size <= MaxSectionSize * (|sections| - missingCount)
    {
      size := 0;
      var i := 0;
      while i < |sections|
        invariant 0 <= i <= |sections|
        invariant size + TotalSizeOf(sections[i..]) == TotalSizeOf(sections)
      {
        assert sections[i..][1..] == sections[i + 1..];
        if sections[i].Some? && sections[i].value.isValid {
          size := size + |sections[i].value.data|;
        }
        i := i + 1;
      }
      TotalSizeBounds(sections);
    }

    /**
     * The slots after a growing section raised the last section number to
     * `lsn`: each present long section is given that last section number,
     * with its CRC32 recomputed; the payloads are untouched.
     */
    method RaiseLastSectionNumbers(lsn: byte, crc: Crc32)
      requires |sections| == lsn + 1
      requires forall i :: 0 <= i < |sections| && sections[i].Some? ==> Belongs(sections[i].value, i, tid, tidExt, version)
      modifies this
      ensures |sections| == |old(sections)| && isValid == old(isValid) && missingCount == old(missingCount)
      ensures tid == old(tid) && tidExt == old(tidExt) && version == old(version) && sourcePid == old(sourcePid)
      ensures forall i :: 0 <= i < |sections| ==> sections[i].Some? == old(sections)[i].Some?
      ensures forall i :: 0 <= i < |sections| && old(sections)[i].Some? ==>
        Belongs(old(sections)[i].value, i, tid, tidExt, version) && sections[i].Some?
        && Member(sections[i].value, i, tid, tidExt, version, |sections|)
        && Payload(sections[i].value) == Payload(old(sections)[i].value)
    {
      var slots := sections;
      var i := 0;
      while i < |slots|
        invariant unchanged(this)
        invariant RaisedUpTo(slots, sections, i, tid, tidExt, version)
      {
        ghost var before := slots;
        if slots[i].Some? {
          slots := slots[i := Some(SetLastSectionNumber(slots[i].value, lsn, true, crc))];
        }
        RaiseSlot(before, sections, i, tid, tidExt, version, lsn, crc, slots);
        i := i + 1;
      }
      sections := slots;
    }

    /**
     * The checks of addSection and the changes it makes before placing the
     * section: an invalid section, one from another table (table id,
     * extension or version) and, without `grow`, one whose numbering does not
     * fit the table are refused with the table untouched. The first section
     * sets the identity of the table and its number of slots. With `grow`, a
     * section announcing fewer sections is given the table's last section
     * number, and one announcing more enlarges the table and raises the last
     * section number of the sections already there.
     */
    method Admit(section: SectionState, grow: bool, crc: Crc32) returns (proceed: bool, s: SectionState)
      requires Valid() && Consistent(section) && SectionNumber(section) <= LastSectionNumber(section)
      modifies this
      ensures Core() && isValid == old(isValid)
      ensures proceed <==> (section.isValid &&
        (old(|sections|) == 0
         || (TableId(section) == old(tid) && TableIdExtension(section) == old(tidExt) && Version(section) == old(version)
             && (grow || (SectionNumber(section) < old(|sections|) && LastSectionNumber(section) == old(|sections|) - 1)))))
      ensures !proceed ==> unchanged(this)
      ensures proceed ==> SectionNumber(s) == SectionNumber(section) && SectionNumber(s) < |sections|
                          && Member(s, SectionNumber(s), tid, tidExt, version, |sections|) && Payload(s) == Payload(section)
      ensures proceed && old(|sections|) == 0 ==>
        tid == TableId(section) && tidExt == TableIdExtension(section) && version == Version(section)
        && sourcePid == section.sourcePid && |sections| == LastSectionNumber(section) + 1 && missingCount == |sections|
        && (forall j :: 0 <= j < |sections| ==> sections[j].None?)
      ensures proceed && old(|sections|) > 0 ==>
        tid == old(tid) && tidExt == old(tidExt) && version == old(version) && sourcePid == old(sourcePid)
        && |sections| == (if LastSectionNumber(section) + 1 > old(|sections|) then LastSectionNumber(section) + 1 else old(|sections|))
        && missingCount == old(missingCount) + |sections| - old(|sections|)
        && (forall j :: old(|sections|) <= j < |sections| ==> sections[j].None?)
        && (forall j :: 0 <= j < old(|sections|) ==> sections[j].Some? == old(sections)[j].Some?)
        && Kept(old(sections), sections, -1)
    {
      s := section;
      if !section.isValid {
        return false, s;
      }
      if |sections| == 0 {
        Start(s);
        return true, s;
      }
      proceed, s := AdmitMore(section, grow, crc);
    }

    /** Admit for a table that already has its first section. */
    method AdmitMore(section: SectionState, grow: bool, crc: Crc32) returns (proceed: bool, s: SectionState)
      requires Valid() && Consistent(section) && SectionNumber(section) <= LastSectionNumber(section)
      requires section.isValid && |sections| > 0
      modifies this
      ensures Core() && isValid == old(isValid)
      ensures proceed <==> (TableId(section) == old(tid) && TableIdExtension(section) == old(tidExt) && Version(section) == old(version)
             && (grow || (SectionNumber(section) < old(|sections|) && LastSectionNumber(section) == old(|sections|) - 1)))
      ensures !proceed ==> unchanged(this)
      ensures proceed ==> SectionNumber(s) == SectionNumber(section) && SectionNumber(s) < |sections|
                          && Member(s, SectionNumber(s), tid, tidExt, version, |sections|) && Payload(s) == Payload(section)
      ensures proceed ==>
        tid == old(tid) && tidExt == old(tidExt) && version == old(version) && sourcePid == old(sourcePid)
        && |sections| == (if LastSectionNumber(section) + 1 > old(|sections|) then LastSectionNumber(section) + 1 else old(|sections|))
        && missingCount == old(missingCount) + |sections| - old(|sections|)
        && (forall j :: old(|sections|) <= j < |sections| ==> sections[j].None?)
        && (forall j :: 0 <= j < old(|sections|) ==> sections[j].Some? == old(sections)[j].Some?)
        && Kept(old(sections), sections, -1)
    {
      s := section;
      var index := SectionNumber(s) as int;
      var lsn := LastSectionNumber(s);
      if TableId(s) != tid || TableIdExtension(s) != tidExt || Version(s) != version {
        return false, s;
      }
      if !grow && (index >= |sections| || lsn as int != |sections| - 1) {
        return false, s;
      }
      proceed := true;
      s := Fit(s, crc);
    }

    /**
     * The growing step of addSection: a section announcing fewer sections
     * than the table has is given the table's last section number (and a new
     * CRC32); one announcing more enlarges the table.
     */
    method Fit(section: SectionState, crc: Crc32) returns (s: SectionState)
      requires Core() && |sections| > 0 && SectionNumber(section) <= LastSectionNumber(section)
      requires Belongs(section, SectionNumber(section), tid, tidExt, version)
      requires LastSectionNumber(section) as int == |sections| - 1 ==> Member(section, SectionNumber(section), tid, tidExt, version, |sections|)
      modifies this
      ensures Core() && isValid == old(isValid)
      ensures SectionNumber(s) == SectionNumber(section) && SectionNumber(s) < |sections|
              && Member(s, SectionNumber(s), tid, tidExt, version, |sections|) && Payload(s) == Payload(section)
      ensures tid == old(tid) && tidExt == old(tidExt) && version == old(version) && sourcePid == old(sourcePid)
      ensures |sections| == (if LastSectionNumber(section) + 1 > old(|sections|) then LastSectionNumber(section) + 1 else old(|sections|))
      ensures missingCount == old(missingCount) + |sections| - old(|sections|)
      ensures forall j :: old(|sections|) <= j < |sections| ==> sections[j].None?
      ensures forall j :: 0 <= j < old(|sections|) ==> sections[j].Some? == old(sections)[j].Some?
      ensures Kept(old(sections), sections, -1)
    {
      s := section;
      var index := SectionNumber(s) as int;
      var lsn := LastSectionNumber(s);
      if lsn as int < |sections| - 1 {
        RaiseOne(s, index, tid, tidExt, version, (|sections| - 1) as byte, crc);
        s := SetLastSectionNumber(s, (|sections| - 1) as byte, true, crc);
      } else if lsn as int > |sections| - 1 {
        Enlarge(lsn, crc);
      }
    }

    /** The first section of an empty table gives the table its identity and its number of empty slots. */
    method Start(s: SectionState)
      requires Valid() && |sections| == 0 && Consistent(s) && s.isValid && SectionNumber(s) <= LastSectionNumber(s)
      modifies this
      ensures Core() && isValid == old(isValid)
      ensures tid == TableId(s) && tidExt == TableIdExtension(s) && version == Version(s) && sourcePid == s.sourcePid
      ensures |sections| == LastSectionNumber(s) + 1 && missingCount == |sections|
      ensures forall j :: 0 <= j < |sections| ==> sections[j].None?
    {
      sections := seq(LastSectionNumber(s) as int + 1, _ => None);
      CountMissingEmpty(|sections|);
      tid, tidExt, version, sourcePid := TableId(s), TableIdExtension(s), Version(s), s.sourcePid;
      missingCount := |sections|;
    }

    /** A section announcing more sections adds empty slots up to its last section number. */
    method Enlarge(lsn: byte, crc: Crc32)
      requires Core() && |sections| < lsn as int + 1
      modifies this
      ensures Core() && isValid == old(isValid)
      ensures tid == old(tid) && tidExt == old(tidExt) && version == old(version) && sourcePid == old(sourcePid)
      ensures |sections| == lsn as int + 1 && missingCount == old(missingCount) + |sections| - old(|sections|)
      ensures forall j :: old(|sections|) <= j < |sections| ==> sections[j].None?
      ensures forall j :: 0 <= j < old(|sections|) ==> sections[j].Some? == old(sections)[j].Some?
      ensures Kept(old(sections), sections, -1)
    {
      AppendEmptySlots(lsn as int + 1 - |sections|);
      ghost var grown := sections;
      RaiseLastSectionNumbers(lsn, crc);
      CountMissingSamePattern(grown, sections);
    }

    /** The empty slots added at the end of the table, counted as missing. */
    method AppendEmptySlots(n: nat)
      requires Core() && |sections| + n <= 256
      modifies this
      ensures isValid == old(isValid) && missingCount == old(missingCount) + n
      ensures tid == old(tid) && tidExt == old(tidExt) && version == old(version) && sourcePid == old(sourcePid)
      ensures |sections| == old(|sections|) + n && sections[..old(|sections|)] == old(sections)
      ensures forall j :: old(|sections|) <= j < |sections| ==> sections[j].None?
      ensures missingCount == CountMissing(sections)
      ensures forall i :: 0 <= i < |sections| && sections[i].Some? ==> Belongs(sections[i].value, i, tid, tidExt, version)
    {
      var extra: Slots := seq(n, _ => None);
      CountMissingEmpty(|extra|);
      CountMissingAppend(sections, extra);
      missingCount := missingCount + |extra|;
      sections := sections + extra;
    }

    /**
     * The end of addSection: the section fills its slot, or replaces the one
     * there when `replace` allows it; the table is valid once no slot is
     * empty. Corrected: the validity flag is also refreshed when the section
     * is refused because its slot is taken.
     */
    method Place(s: SectionState, replace: bool) returns (ok: bool)
      requires Core() && SectionNumber(s) < |sections| && Member(s, SectionNumber(s), tid, tidExt, version, |sections|)
      modifies this
      ensures Valid()
      ensures ok <==> replace || old(sections)[SectionNumber(s)].None?
      ensures ok ==> sections == old(sections)[SectionNumber(s) := Some(s)]
      ensures !ok ==> sections == old(sections)
      ensures missingCount == old(missingCount) - (if ok && old(sections)[SectionNumber(s)].None? then 1 else 0)
      ensures tid == old(tid) && tidExt == old(tidExt) && version == old(version) && sourcePid == old(sourcePid)
    {
      var index := SectionNumber(s) as int;
      if sections[index].None? {
        CountMissingUpdate(sections, index, s);
        sections := sections[index := Some(s)];
        missingCount := missingCount - 1;
      } else if !replace {
        isValid := missingCount == 0;
        return false;
      } else {
        CountMissingUpdate(sections, index, s);
        sections := sections[index := Some(s)];
      }
      isValid := missingCount == 0;
      ok := true;
    }

    /** The end of addSection as written: a section refused because its slot is taken leaves the flag as it was. */
    method PlaceAsWritten(s: SectionState, replace: bool) returns (ok: bool)
      requires Core() && SectionNumber(s) < |sections| && Member(s, SectionNumber(s), tid, tidExt, version, |sections|)
      modifies this
      ensures Core()
      ensures ok <==> replace || old(sections)[SectionNumber(s)].None?
      ensures ok ==> Valid() && sections == old(sections)[SectionNumber(s) := Some(s)]
      ensures !ok ==> unchanged(this)
    {
      var index := SectionNumber(s) as int;
      if sections[index].None? {
        CountMissingUpdate(sections, index, s);
        sections := sections[index := Some(s)];
        missingCount := missingCount - 1;
      } else if !replace {
        return false;
      } else {
        CountMissingUpdate(sections, index, s);
        sections := sections[index := Some(s)];
      }
      isValid := missingCount == 0;
      ok := true;
    }

    /**
     * The checks of addSection before the section is placed: it is valid and
     * either starts the table or has the table's id, extension and version
     * and, unless the table may grow, fits its numbering.
     */
    predicate Admissible(section: SectionState, grow: bool)
      reads this
    {
      section.isValid
      && (|sections| == 0
          || (TableId(section) == tid && TableIdExtension(section) == tidExt && Version(section) == version
              && (grow || (SectionNumber(section) < |sections| && LastSectionNumber(section) == |sections| - 1))))
    }

    /** The slot of the section is empty, or not yet part of the table. */
    predicate SlotFree(section: SectionState)
      reads this
    {
      SectionNumber(section) >= |sections| || sections[SectionNumber(section)].None?
    }

    /**
     * addSection(section, replace, grow), corrected: the section is checked
     * and the table prepared (Admit), then the section is placed. The table
     * invariant holds afterwards, whatever the outcome.
     */
    method AddSection(section: SectionState, replace: bool, grow: bool, crc: Crc32) returns (ok: bool)
      requires Valid() && Consistent(section) && SectionNumber(section) <= LastSectionNumber(section)
      modifies this
      ensures Valid()
      ensures !section.isValid ==> !ok && unchanged(this)
      ensures (old(|sections|) > 0 && (TableId(section) != old(tid) || TableIdExtension(section) != old(tidExt)
                                       || Version(section) != old(version))) ==> !ok && unchanged(this)
      ensures (old(|sections|) > 0 && !grow && (SectionNumber(section) >= old(|sections|)
                                                || LastSectionNumber(section) != old(|sections|) - 1)) ==> !ok && unchanged(this)
      ensures (old(|sections|) > 0 && !replace && SectionNumber(section) < old(|sections|)
               && old(sections)[SectionNumber(section)].Some?) ==> !ok
      ensures ok ==> isValid == (missingCount == 0) && SectionNumber(section) < |sections|
                     && sections[SectionNumber(section)].Some?
                     && Payload(sections[SectionNumber(section)].value) == Payload(section)
                     && Kept(old(sections), sections, SectionNumber(section))
      ensures (old(|sections|) == 0 && section.isValid) ==> ok
      ensures ok <==> old(Admissible(section, grow)) && (replace || old(SlotFree(section)))
      ensures !ok && old(Admissible(section, grow)) ==>
        old(|sections|) > 0 && SectionNumber(section) < old(|sections|) && old(sections)[SectionNumber(section)].Some?
        && tid == old(tid) && tidExt == old(tidExt) && version == old(version) && sourcePid == old(sourcePid)
        && |sections| == (if LastSectionNumber(section) + 1 > old(|sections|) then LastSectionNumber(section) + 1 else old(|sections|))
        && missingCount == old(missingCount) + |sections| - old(|sections|)
        && (forall j :: 0 <= j < |sections| ==> sections[j].Some? == (j < old(|sections|) && old(sections)[j].Some?))
        && Kept(old(sections), sections, -1)
      ensures ok && old(|sections|) == 0 ==>
        tid == TableId(section) && tidExt == TableIdExtension(section) && version == Version(section)
        && sourcePid == section.sourcePid && |sections| == LastSectionNumber(section) + 1
        && missingCount == LastSectionNumber(section)
      ensures forall j :: 0 <= j < old(|sections|) && old(sections)[j].Some? ==> j < |sections| && sections[j].Some?
      ensures (old(|sections|) > 0 && section.isValid && grow && TableId(section) == old(tid)
               && TableIdExtension(section) == old(tidExt) && Version(section) == old(version)) ==>
        |sections| == (if LastSectionNumber(section) + 1 > old(|sections|) then LastSectionNumber(section) + 1 else old(|sections|))
        && forall j :: old(|sections|) <= j < |sections| && j != SectionNumber(section) ==> sections[j].None?
    {
      var proceed, s := Admit(section, grow, crc);
      if !proceed {
        return false;
      }
      ok := Place(s, replace);
    }

    /** addSection as written: the admission is the same, the placement leaves a stale flag on refusal. */
    method AddSectionAsWritten(section: SectionState, replace: bool, grow: bool, crc: Crc32) returns (ok: bool)
      requires Valid() && Consistent(section) && SectionNumber(section) <= LastSectionNumber(section)
      modifies this
      ensures Core()
      ensures ok ==> Valid() && SectionNumber(section) < |sections| && sections[SectionNumber(section)].Some?
      ensures !ok ==> isValid == old(isValid)
      ensures (old(|sections|) == 0 && section.isValid) ==>
        ok && tid == TableId(section) && tidExt == TableIdExtension(section) && version == Version(section)
        && |sections| == LastSectionNumber(section) + 1
      ensures (old(|sections|) > 0 && !replace && SectionNumber(section) < old(|sections|)
               && old(sections)[SectionNumber(section)].Some?) ==> !ok
      ensures forall j :: 0 <= j < old(|sections|) && old(sections)[j].Some? ==> j < |sections| && sections[j].Some?
      ensures (old(|sections|) > 0 && section.isValid && grow && TableId(section) == old(tid)
               && TableIdExtension(section) == old(tidExt) && Version(section) == old(version)) ==>
        |sections| == (if LastSectionNumber(section) + 1 > old(|sections|) then LastSectionNumber(section) + 1 else old(|sections|))
        && forall j :: old(|sections|) <= j < |sections| && j != SectionNumber(section) ==> sections[j].None?
    {
      var proceed, s := Admit(section, grow, crc);
      if !proceed {
        return false;
      }
      ok := PlaceAsWritten(s, replace);
    }
  }

  /**
   * A complete one-section table, offered again its section 0 now announcing
   * two sections, with `replace` off and `grow` on: as written, the table
   * grows to two slots, one of them empty, refuses the section and still
   * says it is valid.
   */
  method StaleValidityExample() returns (t: Table, ok: bool)
    ensures !ok && t.isValid && |t.sections| == 2 && t.sections[1].None? && t.missingCount == 1
  {
    var crc: Crc32 := (d: seq<byte>) => 0;
    var s0 := ReloadLong(0x42, false, 1, 0, true, 0, 0, [], NullPid, crc);
    var s1 := ReloadLong(0x42, false, 1, 0, true, 0, 1, [], NullPid, crc);
    LongSectionRoundTrip(0x42, false, 1, 0, true, 0, 0, [], NullPid, crc);
    LongSectionRoundTrip(0x42, false, 1, 0, true, 0, 1, [], NullPid, crc);
    t := OneSectionTable(s0, crc);
    ok := Regrow(t, s1, crc);
  }

  /** A table holding only the given section 0 of a one-section table. */
  method OneSectionTable(s0: SectionState, crc: Crc32) returns (t: Table)
    requires Consistent(s0) && s0.isValid && SectionNumber(s0) == 0 && LastSectionNumber(s0) == 0
    ensures fresh(t) && t.Valid() && t.isValid && |t.sections| == 1 && t.sections[0].Some?
    ensures t.tid == TableId(s0) && t.tidExt == TableIdExtension(s0) && t.version == Version(s0)
  {
    t := new Table();
    var first := t.AddSectionAsWritten(s0, true, true, crc);
  }

  /**
   * A complete one-section table offered its section 0 again, now announcing
   * two sections: the section is refused, the table has grown an empty slot
   * and is still flagged valid.
   */
  method Regrow(t: Table, s1: SectionState, crc: Crc32) returns (ok: bool)
    requires t.Valid() && t.isValid && |t.sections| == 1 && t.sections[0].Some?
    requires Consistent(s1) && s1.isValid && SectionNumber(s1) == 0 && LastSectionNumber(s1) == 1
    requires TableId(s1) == t.tid && TableIdExtension(s1) == t.tidExt && Version(s1) == t.version
    modifies t
    ensures !ok && t.isValid && |t.sections| == 2 && t.sections[1].None? && t.missingCount == 1
  {
    ok := t.AddSectionAsWritten(s1, false, true, crc);
    MissingSecond(t.sections);
  }

  lemma MissingSecond(slots: Slots)
    requires |slots| == 2 && slots[0].Some? && slots[1].None?
    ensures CountMissing(slots) == 1
  {
    assert slots[1..][1..] == [];
  }
}
