/**
 * The QtsDvdMedia object: a DVD opened through libdvdcss, its volume, its
 * file layout and its read cursor.
 */
module DvdMediaClass {
  import opened Bytes
  import opened Strings
  import opened DvdMedia

  // ---------------------------------------------------------------------
  // The media
  // ---------------------------------------------------------------------

  /** The state of the device and of the volume, which the cursor operations leave alone. */
  datatype DeviceState = DeviceState(deviceOpen: bool, disc: Disc, isOpen: bool, deviceName: string,
                                     rootName: string, volumeId: string, volumeSize: int)

  /**
   * QtsDvdMedia. `deviceOpen` stands for a libdvdcss handle and `disc` for
   * what it reads; `currentFile` indexes `allFiles`, |allFiles| standing for
   * the end of the list.
   */
  class Media {
    var deviceOpen: bool
    var disc: Disc
    var isOpen: bool
    var deviceName: string
    var rootName: string
    var volumeId: string
    var volumeSize: int
    var vtsCount: int
    var nextSector: int
    var rootDirectory: Directory
    var allFiles: seq<DvdFile>
    var currentFile: nat

    ghost predicate Valid()
      reads this
    {
      currentFile <= |allFiles| && (isOpen ==> deviceOpen)
    }

    function Device(): DeviceState
      reads this
    {
      DeviceState(deviceOpen, disc, isOpen, deviceName, rootName, volumeId, volumeSize)
    }

    /** A media object without a media. */
    constructor()
      ensures Valid() && !deviceOpen && !isOpen && allFiles == [] && nextSector == 0 && vtsCount == 0
      ensures volumeSize == 0 && volumeId == "" && deviceName == "" && rootName == ""
    {
      deviceOpen, disc, isOpen := false, [], false;
      deviceName, rootName, volumeId := "", "", "";
      volumeSize, vtsCount, nextSector := 0, 0, 0;
      rootDirectory := Directory("", 0, 0, []);
      allFiles, currentFile := [], 0;
    }

    /** close: forget the media and release the device; the title set count is kept. */
    method Close()
      modifies this
      ensures Valid() && !isOpen && !deviceOpen
      ensures deviceName == "" && rootName == "" && volumeId == "" && volumeSize == 0 && nextSector == 0
      ensures rootDirectory == Directory("", 0, 0, []) && allFiles == [] && currentFile == 0
      ensures vtsCount == old(vtsCount) && disc == old(disc)
    {
      isOpen := false;
      deviceName, rootName, volumeId := "", "", "";
      volumeSize, nextSector := 0, 0;
      rootDirectory := Directory("", 0, 0, []);
      allFiles, currentFile := [], 0;
      deviceOpen := false;
    }

    /** Whether seekSector(position) succeeds. */
    function CanSeek(position: int): bool
      reads this
    {
      deviceOpen && position >= 0
      && (isOpen ==> position < volumeSize && FindFile(allFiles, position).Some?)
      && DeviceSeek(disc, position) >= 0
    }

    /**
     * seekSector: position the cursor. It fails without a device, for a
     * negative position, and, once the media is open, for a position beyond
     * the volume or in no file of the layout; then nothing changes.
     */
    method SeekSector(position: int) returns (ok: bool)
      requires Valid()
      modifies this
      ensures Valid() && Device() == old(Device())
      ensures vtsCount == old(vtsCount) && rootDirectory == old(rootDirectory) && allFiles == old(allFiles)
      ensures ok == CanSeek(position)
      ensures ok ==> nextSector == position
      ensures ok ==> currentFile == (if isOpen then FindFile(allFiles, position).value else |allFiles|)
      ensures !ok ==> nextSector == old(nextSector) && currentFile == old(currentFile)
    {
      if !deviceOpen || position < 0 || (isOpen && position >= volumeSize) {
        return false;
      }
      var files := allFiles;
      var file := |files|;
      if isOpen {
        file := 0;
        while file < |files| && !(files[file].startSector <= position < EndSector(files[file]))
          invariant 0 <= file <= |files|
          invariant forall k :: 0 <= k < file ==> !(files[k].startSector <= position < EndSector(files[k]))
        {
          file := file + 1;
        }
        if file == |files| {
          return false;
        }
      }
      if DeviceSeek(disc, position) < 0 {
        return false;
      }
      currentFile := file;
      nextSector := position;
      ok := true;
    }

    /**
     * readSectors: read up to `count` sectors, from `position` when it is
     * not negative (after a seek) and from the cursor otherwise. `result` is
     * the number of sectors delivered in `data`, -1 when nothing could be
     * read.
     */
    method ReadSectors(count: int, position: int, policy: BadSectorPolicy) returns (result: int, data: seq<seq<byte>>)
      requires Valid()
      modifies this
      ensures Valid() && Device() == old(Device())
      ensures vtsCount == old(vtsCount) && rootDirectory == old(rootDirectory) && allFiles == old(allFiles)
      ensures result == |data| || (result == -1 && data == [])
      ensures |data| <= (if count < 0 then 0 else count)
      ensures !deviceOpen || (position >= 0 && !CanSeek(position)) ==>
        result == -1 && data == [] && nextSector == old(nextSector) && currentFile == old(currentFile)
      ensures deviceOpen && (position < 0 || CanSeek(position)) ==>
        var start := if position >= 0 then position else old(nextSector);
        start <= nextSector && data == Gathered(disc, policy, start, nextSector)
        && LongestBadRun(disc, start, nextSector) <= BadSectorRetry
        && (policy == ErrorOnBadSectors ==> LongestBadRun(disc, start, nextSector) == 0)
        && (!isOpen && policy != SkipBadSectors && count > 0 ==> result == count || !Readable(disc, nextSector))
      ensures (isOpen && EndsWithin(allFiles, volumeSize) && (position >= 0 ==> CanSeek(position))
        && (position < 0 ==> old(currentFile) < |allFiles| && old(nextSector) <= volumeSize)) ==> nextSector <= volumeSize
    {
      if !deviceOpen {
        return -1, [];
      }
      if position >= 0 {
        var ok := SeekSector(position);
        if !ok {
          return -1, [];
        }
      }
      var next, file;
      result, data, next, file := ReadLoop(disc, isOpen, allFiles, volumeSize, policy, count, nextSector, currentFile);
      nextSector, currentFile := next, file;
    }

    /** One sector read from the cursor, without bad sector tolerance, as the scan does it. */
    method ReadNextSector() returns (ok: bool, d: seq<byte>)
      requires Valid() && deviceOpen && !isOpen
      modifies this
      ensures Valid() && Device() == old(Device())
      ensures vtsCount == old(vtsCount) && rootDirectory == old(rootDirectory) && allFiles == old(allFiles)
      ensures ok ==> Readable(disc, old(nextSector)) && d == disc[old(nextSector)].value && nextSector == old(nextSector) + 1
      ensures !ok ==> !Readable(disc, old(nextSector))
    {
      var s := nextSector;
      var result, data := ReadSectors(1, -1, ErrorOnBadSectors);
      SingleRead(disc, s, nextSector, result, data);
      ok := result == 1;
      d := if ok then data[0] else [];
    }

    /**
     * The scan of the volume descriptor set by openFromDevice, from the
     * cursor, at most 8 sectors, each read alone without bad sector
     * tolerance.
     */
    method ScanVolumeDescriptors() returns (scan: VolumeScan)
      requires Valid() && deviceOpen && !isOpen
      modifies this
      ensures Valid() && Device() == old(Device())
      ensures vtsCount == old(vtsCount) && rootDirectory == old(rootDirectory) && allFiles == old(allFiles)
      ensures scan == ScanDescriptors(disc, old(nextSector), 8)
    {
      scan := NoPrimary;
      var count := 8;
      ghost var target := ScanDescriptors(disc, nextSector, 8);
      while count > 0
        invariant 0 <= count <= 8
        invariant Valid() && Device() == old(Device())
        invariant vtsCount == old(vtsCount) && rootDirectory == old(rootDirectory) && allFiles == old(allFiles)
        invariant target == ScanDescriptors(disc, nextSector, count)
      {
        ghost var sector := nextSector;
        var ok, d := ReadNextSector();
        ScanStep(disc, sector, count, ok, d);
        if !ok {
          break;
        }
        if Latin1(d, 1, 5) != VolumeDescriptorId || At(d, 0) == VolDescTypeTerminator {
          break;
        } else if At(d, 0) == VolDescTypePrimary {
          scan := PrimaryOf(d);
          break;
        }
        count := count - 1;
      }
    }

    /**
     * readDirectoryStructure: read directory `dir` and, recursively, its
     * subdirectories, at most 256 levels deep. Every file found is appended
     * to allFiles, and the title set information files directly in the
     * VIDEO_TS directory of the root are counted. Every sector of the
     * directory must be read (see Listing).
     */
    method ReadDirectoryStructure(dir: Directory, depth: int, inRoot: bool, inVideoTs: bool) returns (ok: bool, filled: Directory)
      requires Valid() && deviceOpen && !isOpen
      modifies this
      ensures Valid() && Device() == old(Device()) && rootDirectory == old(rootDirectory)
      ensures depth > MaxDirectoryDepth ==> !ok && allFiles == old(allFiles) && vtsCount == old(vtsCount)
      ensures ok ==> filled.path == dir.path && filled.startSector == dir.startSector && filled.sizeInBytes == dir.sizeInBytes
      ensures ok ==> ReadFrom(disc, filled, depth, old(nextSector))
      ensures DiscListing(disc, dir.startSector, dir.sizeInBytes, old(nextSector)).None? ==> !ok
      ensures ok ==> nextSector == WalkEnd(filled.entries, DirStart(filled, old(nextSector)) + DirSectorCount(filled.sizeInBytes))
      ensures ok ==> allFiles == old(allFiles) + FilesIn(filled.entries)
      ensures ok ==> vtsCount == old(vtsCount) + VtsIn(filled.entries, inRoot, inVideoTs)
      ensures ok ==> depth + Nesting(filled.entries) <= MaxDirectoryDepth
      ensures ok ==> PathsUnder(dir.path, filled.entries)
      ensures HoldsTree(disc, dir, depth, old(nextSector)) ==> ok
      decreases MaxDirectoryDepth + 1 - depth, 5
    {
      ghost var records, end;
      ok, filled, records, end := ReadLevel(dir, depth, inRoot, inVideoTs);
      if !ok {
        TreeNotHeld(disc, dir, depth, old(nextSector));
      }
    }

    /**
     * The steps of readDirectoryStructure in order: the depth check, the
     * listing, the entries. A failure names the step that failed.
     */
    method ReadLevel(dir: Directory, depth: int, inRoot: bool, inVideoTs: bool)
      returns (ok: bool, filled: Directory, ghost records: seq<DirRecord>, ghost end: int)
      requires Valid() && deviceOpen && !isOpen
      modifies this
      ensures Valid() && Device() == old(Device()) && rootDirectory == old(rootDirectory)
      ensures depth > MaxDirectoryDepth ==> !ok && allFiles == old(allFiles) && vtsCount == old(vtsCount)
      ensures ok ==> filled.path == dir.path && filled.startSector == dir.startSector && filled.sizeInBytes == dir.sizeInBytes
      ensures ok ==> ReadFrom(disc, filled, depth, old(nextSector))
      ensures DiscListing(disc, dir.startSector, dir.sizeInBytes, old(nextSector)).None? ==> !ok
      ensures ok ==> nextSector == WalkEnd(filled.entries, DirStart(filled, old(nextSector)) + DirSectorCount(filled.sizeInBytes))
      ensures ok ==> allFiles == old(allFiles) + FilesIn(filled.entries)
      ensures ok ==> vtsCount == old(vtsCount) + VtsIn(filled.entries, inRoot, inVideoTs)
      ensures ok ==> depth + Nesting(filled.entries) <= MaxDirectoryDepth
      ensures ok ==> PathsUnder(dir.path, filled.entries)
      ensures !ok ==> depth > MaxDirectoryDepth || DiscListing(disc, dir.startSector, dir.sizeInBytes, old(nextSector)).None?
                      || (DiscListing(disc, dir.startSector, dir.sizeInBytes, old(nextSector)) == Some(records)
                          && end == DirStart(dir, old(nextSector)) + DirSectorCount(dir.sizeInBytes)
                          && !HoldsEntries(disc, dir.path, records, depth + 1, end))
      decreases MaxDirectoryDepth + 1 - depth, 4
    {
      filled, records, end := dir, [], 0;
      if depth > MaxDirectoryDepth {
        return false, dir, records, end;
      }
      var listing;
      ok, listing := ReadListing(dir);
      if !ok {
        return false, dir, records, end;
      }
      records, end := listing, nextSector;
      var entries;
      ok, entries := ReadEntries(listing, dir.path, depth, inRoot, inVideoTs);
      if !ok {
        return false, dir, records, end;
      }
      filled := Directory(dir.path, dir.startSector, dir.sizeInBytes, entries);
      assert end == DirStart(filled, old(nextSector)) + DirSectorCount(filled.sizeInBytes);
      ReadFromLevels(disc, filled, depth, old(nextSector), end);
    }

    /**
     * The first half of readDirectoryStructure: read all the sectors of
     * directory `dir` (an error on any bad sector) and cut them into
     * directory records. Fails when a sector of the directory is unreadable.
     */
    method ReadListing(dir: Directory) returns (ok: bool, records: seq<DirRecord>)
      requires Valid() && deviceOpen && !isOpen
      modifies this
      ensures Valid() && Device() == old(Device()) && rootDirectory == old(rootDirectory)
      ensures allFiles == old(allFiles) && vtsCount == old(vtsCount)
      ensures ok <==> DiscListing(disc, dir.startSector, dir.sizeInBytes, old(nextSector)).Some?
      ensures ok ==> DiscListing(disc, dir.startSector, dir.sizeInBytes, old(nextSector)) == Some(records)
      ensures ok ==> nextSector == DirStart(dir, old(nextSector)) + DirSectorCount(dir.sizeInBytes)
    {
      var n := DirSectorCount(dir.sizeInBytes);
      ghost var s := DirStart(dir, nextSector);
      var got, sectors := ReadSectors(n, dir.startSector, ErrorOnBadSectors);
      if got <= 0 || got < n {
        // A sector of the directory cannot be read: the one the seek missed, or the one the read stopped at.
        if n > 0 {
          DiscRunReadable(disc, s, s + n);
          if dir.startSector >= 0 && !CanSeek(dir.startSector) {
            assert !Readable(disc, s);
          } else {
            GatheredLength(disc, ErrorOnBadSectors, s, nextSector);
            assert !Readable(disc, nextSector);
          }
        }
        return false, [];
      }
      // Every sector of the directory was delivered, none of them bad.
      GatheredLength(disc, ErrorOnBadSectors, s, nextSector);
      WholeDirectoryRead(disc, dir, old(nextSector), nextSector);
      records := ReadRecords(PadTo(Flatten(sectors), n * 2048), dir.sizeInBytes);
      ok := true;
    }

    /** The record loop of readDirectoryStructure: the entries of the records, in order. */
    method ReadEntries(records: seq<DirRecord>, parent: string, depth: int, inRoot: bool, inVideoTs: bool)
      returns (ok: bool, entries: seq<Entry>)
      requires Valid() && deviceOpen && !isOpen && depth <= MaxDirectoryDepth
      modifies this
      ensures Valid() && Device() == old(Device()) && rootDirectory == old(rootDirectory)
      ensures ok ==> |entries| == |records| && forall k :: 0 <= k < |records| ==> EntryOf(parent, records[k], entries[k])
      ensures ok ==> nextSector == WalkEnd(entries, old(nextSector))
      ensures ok ==> SubsRead(disc, entries, depth + 1, old(nextSector))
      ensures HoldsEntries(disc, parent, records, depth + 1, old(nextSector)) ==> ok
      ensures ok ==> allFiles == old(allFiles) + FilesIn(entries)
      ensures ok ==> vtsCount == old(vtsCount) + VtsIn(entries, inRoot, inVideoTs)
      ensures ok ==> depth + Nesting(entries) <= MaxDirectoryDepth
      ensures ok ==> PathsUnder(parent, entries)
      decreases MaxDirectoryDepth + 1 - depth, 3
    {
      entries := [];
      var i := 0;
      while i < |records|
        invariant 0 <= i <= |records| && EntriesOf(parent, records[..i], entries)
        invariant Valid() && Device() == old(Device()) && rootDirectory == old(rootDirectory)
        invariant nextSector == WalkEnd(entries, old(nextSector))
        invariant SubsRead(disc, entries, depth + 1, old(nextSector))
        invariant allFiles == old(allFiles) + FilesIn(entries)
        invariant vtsCount == old(vtsCount) + VtsIn(entries, inRoot, inVideoTs)
        invariant depth + Nesting(entries) <= MaxDirectoryDepth
        invariant PathsUnder(parent, entries)
      {
        var entryOk, e := ReadNextEntry(records, entries, parent, depth, inRoot, inVideoTs, old(nextSector));
        if !entryOk {
          return false, entries;
        }
        EntriesOfAppend(parent, records, entries, e, i);
        FilesAppend(old(allFiles), entries, e);
        EntriesAppend(entries, e, inRoot, inVideoTs, parent);
        WalkAppend(entries, e, old(nextSector));
        SubsReadAppend(disc, entries, e, depth + 1, old(nextSector));
        entries := entries + [e];
        i := i + 1;
      }
      assert records[..i] == records;
      ok := true;
    }

    /**
     * One turn of the record loop: ReadEntry on the record after `entries`,
     * the entries read so far from `start`. When it fails, the disc does not
     * hold the entries of all the records.
     */
    method ReadNextEntry(records: seq<DirRecord>, entries: seq<Entry>, parent: string, depth: int, inRoot: bool, inVideoTs: bool, ghost start: int)
      returns (ok: bool, e: Entry)
      requires Valid() && deviceOpen && !isOpen && depth <= MaxDirectoryDepth
      requires |entries| < |records| && EntriesOf(parent, records[..|entries|], entries)
      requires SubsRead(disc, entries, depth + 1, start) && nextSector == WalkEnd(entries, start)
      modifies this
      ensures Valid() && Device() == old(Device()) && rootDirectory == old(rootDirectory)
      ensures ok ==> EntryOf(parent, records[|entries|], e)
      ensures ok ==> nextSector == WalkEnd([e], old(nextSector))
      ensures ok ==> SubsRead(disc, [e], depth + 1, old(nextSector))
      ensures !ok ==> !HoldsEntries(disc, parent, records, depth + 1, start)
      ensures ok ==> allFiles == old(allFiles) + FilesIn([e])
      ensures ok ==> vtsCount == old(vtsCount) + VtsIn([e], inRoot, inVideoTs)
      ensures ok ==> depth + Nesting([e]) <= MaxDirectoryDepth && PathsUnder(parent, [e])
      decreases MaxDirectoryDepth + 1 - depth, 2
    {
      ok, e := ReadEntry(records[|entries|], parent, depth, inRoot, inVideoTs);
      if !ok {
        EntriesNotHeld(disc, parent, records, entries, |entries|, depth + 1, start, old(nextSector));
      }
    }

    /**
     * One directory record: a subdirectory is explored one level deeper (see
     * ReadSubdirectory); a file is appended to allFiles and counted when it
     * is a title set information file of VIDEO_TS.
     */
    method ReadEntry(r: DirRecord, parent: string, depth: int, inRoot: bool, inVideoTs: bool) returns (ok: bool, e: Entry)
      requires Valid() && deviceOpen && !isOpen && depth <= MaxDirectoryDepth
      modifies this
      ensures Valid() && Device() == old(Device()) && rootDirectory == old(rootDirectory)
      ensures ok ==> EntryOf(parent, r, e)
      ensures ok ==> nextSector == WalkEnd([e], old(nextSector))
      ensures ok ==> SubsRead(disc, [e], depth + 1, old(nextSector))
      ensures !r.isDirectory ==> ok
      ensures HoldsEntry(disc, parent, r, depth + 1, old(nextSector)) ==> ok
      ensures ok ==> allFiles == old(allFiles) + FilesIn([e])
      ensures ok ==> vtsCount == old(vtsCount) + VtsIn([e], inRoot, inVideoTs)
      ensures ok ==> depth + Nesting([e]) <= MaxDirectoryDepth && PathsUnder(parent, [e])
      decreases MaxDirectoryDepth + 1 - depth, 1
    {
      if r.isDirectory {
        if HoldsEntry(disc, parent, r, depth + 1, nextSector) {
          EntryHeldTree(disc, parent, r, depth + 1, nextSector);
        }
        ok, e := ReadSubdirectory(r, parent, depth, inRoot);
        // What a subdirectory counts does not depend on its parent being VIDEO_TS.
        OneEntry(e, inRoot, false, parent);
        OneEntry(e, inRoot, inVideoTs, parent);
      } else {
        var file := DvdFile(Child(parent, r.name), r.sector, r.size);
        allFiles := allFiles + [file];
        if inVideoTs && VtsInformationFileNumber(r.name) >= 0 {
          vtsCount := vtsCount + 1;
        }
        e := FileEntry(r.name, file);
        ok := true;
        WalkOne(e, old(nextSector));
        SubsReadOne(disc, e, depth + 1, old(nextSector));
        OneEntry(e, inRoot, inVideoTs, parent);
      }
    }

    /**
     * The record of a subdirectory: its tree is read one level deeper, and
     * it is the VIDEO_TS of the root when its name says so in any case.
     */
    method ReadSubdirectory(r: DirRecord, parent: string, depth: int, inRoot: bool) returns (ok: bool, e: Entry)
      requires Valid() && deviceOpen && !isOpen && depth <= MaxDirectoryDepth && r.isDirectory
      modifies this
      ensures Valid() && Device() == old(Device()) && rootDirectory == old(rootDirectory)
      ensures ok ==> EntryOf(parent, r, e)
      ensures ok ==> nextSector == WalkEnd([e], old(nextSector))
      ensures ok ==> SubsRead(disc, [e], depth + 1, old(nextSector))
      ensures ok ==> allFiles == old(allFiles) + FilesIn([e])
      ensures HoldsTree(disc, Directory(Child(parent, r.name), r.sector, r.size, []), depth + 1, old(nextSector)) ==> ok
      ensures ok ==> vtsCount == old(vtsCount) + VtsIn([e], inRoot, false)
      ensures ok ==> depth + Nesting([e]) <= MaxDirectoryDepth && PathsUnder(parent, [e])
      decreases MaxDirectoryDepth + 1 - depth, 0
    {
      ghost var c0 := nextSector;
      var vts := inRoot && ToUpper(r.name) == "VIDEO_TS";
      var empty := Directory(Child(parent, r.name), r.sector, r.size, []);
      var sub;
      ok, sub := ReadDirectoryStructure(empty, depth + 1, false, vts);
      e := DirEntry(r.name, sub);
      if !ok {
        return;
      }
      SubsReadOne(disc, e, depth + 1, c0);
      WalkOne(e, c0);
      OneEntry(e, inRoot, false, parent);
    }

    /**
     * openFromDevice: open the device (None when libdvdcss cannot), find
     * the primary volume descriptor and the root directory, read the whole
     * directory tree, lay the files out by start sector with placeholders
     * in the holes up to the volume size, and put the cursor on sector 0.
     * On any failure the media is closed.
     */
    method OpenFromDevice(name: string, device: Option<Disc>) returns (ok: bool)
      modifies this
      ensures Valid()
      ensures !ok ==> !isOpen && !deviceOpen && allFiles == [] && volumeSize == 0 && nextSector == 0
      ensures device.None? ==> !ok
      ensures ok ==> isOpen && deviceOpen && device == Some(disc) && deviceName == name && nextSector == 0
      ensures ok ==> var scan := ScanDescriptors(disc, VolumeDescriptorsSector, 8);
        scan.Primary? && scan.rootSector >= 0 && scan.rootSize >= 0
        && volumeId == scan.volumeId && volumeSize == scan.volumeSize && volumeSize > 0
        && rootDirectory.path == "" && rootDirectory.startSector == scan.rootSector
        && rootDirectory.sizeInBytes == scan.rootSize
      ensures ok ==> allFiles == WithPlaceholders(SortByStart(FilesIn(rootDirectory.entries)), volumeSize)
      ensures ok ==> vtsCount == old(vtsCount) + VtsIn(rootDirectory.entries, true, false)
      ensures ok ==> Nesting(rootDirectory.entries) <= MaxDirectoryDepth
      ensures ok ==> FindFile(allFiles, 0) == Some(currentFile)
      ensures ok ==> ReadFrom(disc, rootDirectory, 0, 0)
      ensures (device.Some? && (var scan := ScanDescriptors(device.value, VolumeDescriptorsSector, 8);
                 scan.Primary? && scan.rootSector >= 0 && scan.rootSize >= 0
                 && Openable(device.value, scan.rootSector, scan.rootSize, scan.volumeSize, 0))) ==> ok
    {
      Close();
      if device.None? {
        return false;
      }
      disc, deviceOpen, deviceName := device.value, true, name;
      var scan := LocateRoot();
      if !scan.Primary? || scan.rootSector < 0 || scan.rootSize < 0 {
        Close();
        return false;
      }
      ghost var cursor := nextSector;
      if Openable(disc, scan.rootSector, scan.rootSize, volumeSize, 0) {
        OpenableAnyCursor(disc, scan.rootSector, scan.rootSize, volumeSize, 0, cursor);
      }
      ok := LoadStructure(scan.rootSector, scan.rootSize);
      if !ok {
        Close();
      } else {
        // The root has a start sector: the cursor it was read with does not matter.
        ReadFromAnyCursor(disc, rootDirectory, 0, cursor, 0);
      }
    }

    /**
     * The first part of openFromDevice: seek to the volume descriptor set
     * and scan it; the volume identifier and size are those of the primary
     * descriptor when there is one.
     */
    method LocateRoot() returns (scan: VolumeScan)
      requires Valid() && deviceOpen && !isOpen && allFiles == [] && volumeId == "" && volumeSize == 0
      modifies this
      ensures Valid() && deviceOpen && !isOpen && allFiles == [] && disc == old(disc) && deviceName == old(deviceName)
      ensures vtsCount == old(vtsCount) && rootDirectory == old(rootDirectory)
      ensures scan == ScanDescriptors(disc, VolumeDescriptorsSector, 8)
      ensures volumeId == (if scan.Primary? then scan.volumeId else "")
      ensures volumeSize == (if scan.Primary? then scan.volumeSize else 0)
    {
      scan := NoPrimary;
      var seeked := SeekSector(VolumeDescriptorsSector);
      if seeked {
        scan := ScanVolumeDescriptors();
      }
      if scan.Primary? {
        volumeId, volumeSize := scan.volumeId, scan.volumeSize;
      }
    }

    /**
     * The second part of openFromDevice: read the tree from the root
     * directory, lay the files out and put the cursor on sector 0.
     */
    method LoadStructure(rootSector: int, rootSize: int) returns (ok: bool)
      requires Valid() && deviceOpen && !isOpen && allFiles == []
      modifies this
      ensures Valid() && disc == old(disc) && deviceName == old(deviceName) && deviceOpen
      ensures volumeId == old(volumeId) && volumeSize == old(volumeSize)
      ensures ok ==> isOpen && nextSector == 0 && volumeSize > 0
      ensures ok ==> rootDirectory.path == "" && rootDirectory.startSector == rootSector && rootDirectory.sizeInBytes == rootSize
      ensures ok ==> allFiles == WithPlaceholders(SortByStart(FilesIn(rootDirectory.entries)), volumeSize)
      ensures ok ==> vtsCount == old(vtsCount) + VtsIn(rootDirectory.entries, true, false)
      ensures ok ==> Nesting(rootDirectory.entries) <= MaxDirectoryDepth
      ensures ok ==> FindFile(allFiles, 0) == Some(currentFile)
      ensures ok ==> ReadFrom(disc, rootDirectory, 0, old(nextSector))
      ensures Openable(disc, rootSector, rootSize, volumeSize, old(nextSector)) ==> ok
    {
      ghost var c0 := nextSector;
      ghost var openable := Openable(disc, rootSector, rootSize, volumeSize, c0);
      if openable {
        OpenableHolds(disc, rootSector, rootSize, volumeSize, c0);
      }
      var tree;
      ok, tree := ReadDirectoryStructure(Directory("", rootSector, rootSize, []), 0, true, false);
      if !ok {
        return;
      }
      if openable {
        OpenableLayout(disc, rootSector, rootSize, volumeSize, c0, tree);
      }
      ok := LayOut(tree);
    }

    /**
     * The last part of openFromDevice: the files of the tree sorted by start
     * sector with placeholders in the holes up to the volume size, then the
     * media open and the cursor on sector 0. The seek fails when the volume
     * is empty, when no file of the layout holds sector 0, or when the disc
     * has no sector 0.
     */
    method LayOut(tree: Directory) returns (ok: bool)
      requires Valid() && deviceOpen && !isOpen && allFiles == FilesIn(tree.entries)
      modifies this
      ensures Valid() && disc == old(disc) && deviceName == old(deviceName) && deviceOpen
      ensures volumeId == old(volumeId) && volumeSize == old(volumeSize) && vtsCount == old(vtsCount)
      ensures rootDirectory == tree
      ensures ok == (volumeSize > 0 && FindFile(WithPlaceholders(SortByStart(FilesIn(tree.entries)), volumeSize), 0).Some? && 0 < |disc|)
      ensures ok ==> isOpen && nextSector == 0
      ensures ok ==> allFiles == WithPlaceholders(SortByStart(FilesIn(tree.entries)), volumeSize)
      ensures ok ==> FindFile(allFiles, 0) == Some(currentFile)
    {
      rootDirectory := tree;
      allFiles := FillHoles(SortByStart(allFiles), volumeSize);
      currentFile := |allFiles|;
      isOpen := true;
      ok := SeekSector(0);
    }
  }
}
