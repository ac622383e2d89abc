/**
 * QtsDvdMedia: a DVD read sector by sector through libdvdcss. Opening the
 * media locates the primary volume descriptor and the root directory of the
 * ISO 9660 file system (ECMA-119), reads the whole directory tree, and lays
 * out every file and every hole between files as one sorted list. Reads
 * then follow that layout, with three policies for sectors that cannot be
 * read.
 */
module DvdMedia {
  import opened Sequences
  import opened Bytes
  import opened Strings

  const SectorSize: int := 2048
  /** ECMA-119 section 6.7.1: the volume descriptor set starts at sector 16. */
  const VolumeDescriptorsSector: int := 16
  const VolumeDescriptorId: string := "CD001"
  const VolDescTypePrimary: int := 1
  const VolDescTypeTerminator: int := 255
  /** The directory record of the root directory inside the primary volume descriptor. */
  const RootDirDescOffset: int := 156
  const RootDirDescSize: int := 34
  /** At most this many consecutive bad sectors are passed over in one read. */
  const BadSectorRetry: int := 64
  const MaxDirectoryDepth: int := 256

  datatype BadSectorPolicy = ErrorOnBadSectors | SkipBadSectors | ReadBadSectorsAsZero

  // ---------------------------------------------------------------------
  // The device
  // ---------------------------------------------------------------------

  /**
   * The media as libdvdcss delivers it: the contents of each sector, or
   * None for a sector that cannot be read. Decryption is not modelled.
   */
  type Disc = seq<Option<seq<byte>>>

  predicate Readable(disc: Disc, a: int)
  {
    0 <= a < |disc| && disc[a].Some?
  }

  /** One sector of zero bytes. */
  function ZeroSector(): (r: seq<byte>)
    ensures |r| == 2048 && forall k :: 0 <= k < |r| ==> r[k] == 0
  {
    seq(2048, k => 0)
  }

  /** What lands in the buffer for sector `a`: its contents, or zeroes for a bad sector. */
  function Contents(disc: Disc, a: int): seq<byte>
  {
    if Readable(disc, a) then disc[a].value else ZeroSector()
  }

  /** dvdcss_seek: the new position, or -1 outside the media. */
  function DeviceSeek(disc: Disc, position: int): (r: int)
    ensures r >= 0 <==> 0 <= position < |disc|
    ensures r >= 0 ==> r == position
  {
    if 0 <= position < |disc| then position else -1
  }

  /** The number of consecutive readable sectors from `a` on, at most `n`. */
  function ReadableRun(disc: Disc, a: int, n: nat): (r: nat)
    ensures r <= n
    ensures r < n ==> !Readable(disc, a + r)
    decreases n
  {
    if n == 0 || !Readable(disc, a) then 0 else 1 + ReadableRun(disc, a + 1, n - 1)
  }

  lemma {:induction false} ReadableRunAll(disc: Disc, a: int, n: nat)
    ensures forall k :: a <= k < a + ReadableRun(disc, a, n) ==> Readable(disc, k)
    decreases n
  {
    if n > 0 && Readable(disc, a) {
      ReadableRunAll(disc, a + 1, n - 1);
    }
  }

  /** dvdcss_read of `n` sectors at `a`: the number of sectors read, -1 when the first one is bad. */
  function DeviceRead(disc: Disc, a: int, n: nat): (r: int)
    requires n >= 1
    ensures r != 0 && -1 <= r <= n
    ensures r == -1 <==> !Readable(disc, a)
  {
    var k := ReadableRun(disc, a, n);
    if k == 0 then -1 else k
  }

  // ---------------------------------------------------------------------
  // What a read delivers
  // ---------------------------------------------------------------------

  /** The contents of sectors a..b-1. */
  function Run(disc: Disc, a: int, b: int): (r: seq<seq<byte>>)
    ensures |r| == if b <= a then 0 else b - a
    decreases b - a
  {
    if b <= a then [] else Run(disc, a, b - 1) + [Contents(disc, b - 1)]
  }

  /**
   * The buffer contents after the media position moved from `start` to
   * `end`: one entry per sector, except that SkipBadSectors leaves no entry
   * for a bad sector.
   */
  function Gathered(disc: Disc, policy: BadSectorPolicy, start: int, end: int): seq<seq<byte>>
    decreases end - start
  {
    if end <= start then []
    else
      var last := if policy == SkipBadSectors && !Readable(disc, end - 1) then [] else [Contents(disc, end - 1)];
      Gathered(disc, policy, start, end - 1) + last
  }

  /** Only skipping drops sectors: otherwise the buffer holds one entry per sector passed. */
  lemma {:induction false} GatheredLength(disc: Disc, policy: BadSectorPolicy, start: int, end: int)
    requires policy != SkipBadSectors && start <= end
    ensures |Gathered(disc, policy, start, end)| == end - start
    decreases end - start
  {
    if end > start {
      GatheredLength(disc, policy, start, end - 1);
    }
  }

  /** Under ErrorOnBadSectors or ReadBadSectorsAsZero the buffer is positional: entry k is sector start+k. */
  lemma {:induction false} GatheredAt(disc: Disc, policy: BadSectorPolicy, start: int, end: int, k: nat)
    requires policy != SkipBadSectors && start + k < end
    ensures |Gathered(disc, policy, start, end)| == end - start
    ensures Gathered(disc, policy, start, end)[k] == Contents(disc, start + k)
    decreases end - start
  {
    GatheredLength(disc, policy, start, end);
    if start + k < end - 1 {
      GatheredAt(disc, policy, start, end - 1, k);
    }
  }

  /** A run of readable sectors appends its contents, whatever the policy. */
  lemma {:induction false} GatheredReadable(disc: Disc, policy: BadSectorPolicy, start: int, a: int, b: int)
    requires start <= a <= b
    requires forall k :: a <= k < b ==> Readable(disc, k)
    ensures Gathered(disc, policy, start, b) == Gathered(disc, policy, start, a) + Run(disc, a, b)
    decreases b - a
  {
    if b > a {
      GatheredReadable(disc, policy, start, a, b - 1);
    }
  }

  /** The number of bad sectors just before `end`, not looking before `start`. */
  function TrailingBad(disc: Disc, start: int, end: int): nat
    decreases end - start
  {
    if end <= start || Readable(disc, end - 1) then 0 else TrailingBad(disc, start, end - 1) + 1
  }

  /** The longest run of consecutive bad sectors in start..end-1. */
  function LongestBadRun(disc: Disc, start: int, end: int): nat
    decreases end - start
  {
    if end <= start then 0
    else
      var t := TrailingBad(disc, start, end);
      var l := LongestBadRun(disc, start, end - 1);
      if t > l then t else l
  }

  /** No run of bad sectors at all: every sector of start..end-1 is readable. */
  lemma {:induction false} NoBadRun(disc: Disc, start: int, end: int, a: int)
    requires LongestBadRun(disc, start, end) == 0 && start <= a < end
    ensures Readable(disc, a)
    decreases end - start
  {
    if a < end - 1 {
      NoBadRun(disc, start, end - 1, a);
    }
  }

  /** Reading good sectors ends any run of bad ones and starts no new one. */
  lemma {:induction false} ReadableKeepsLongest(disc: Disc, start: int, a: int, b: int)
    requires start <= a < b
    requires forall k :: a <= k < b ==> Readable(disc, k)
    ensures TrailingBad(disc, start, b) == 0
    ensures LongestBadRun(disc, start, b) == LongestBadRun(disc, start, a)
    decreases b - a
  {
    if b - 1 > a {
      ReadableKeepsLongest(disc, start, a, b - 1);
    }
  }

  // ---------------------------------------------------------------------
  // The media layout
  // ---------------------------------------------------------------------

  /** A file of the media, or a placeholder (empty name) for the space between files. */
  datatype DvdFile = DvdFile(name: string, startSector: int, sizeInBytes: int)

  /** The sectors that hold the file: its size rounded up to whole sectors. */
  function SectorCountOf(sizeInBytes: int): (r: nat)
  {
    if sizeInBytes <= 0 then 0 else (sizeInBytes + 2047) / 2048
  }

  function EndSector(f: DvdFile): (r: int)
    ensures r >= f.startSector
  {
    f.startSector + SectorCountOf(f.sizeInBytes)
  }

  /** The first file of the layout holding sector `position`. */
  function FindFile(files: seq<DvdFile>, position: int): (r: Option<nat>)
    ensures r.Some? ==> r.value < |files| && files[r.value].startSector <= position < EndSector(files[r.value])
    ensures r.Some? ==> forall k :: 0 <= k < r.value ==> !(files[k].startSector <= position < EndSector(files[k]))
    ensures r.None? ==> forall k :: 0 <= k < |files| ==> !(files[k].startSector <= position < EndSector(files[k]))
  {
    if |files| == 0 then None
    else if files[0].startSector <= position < EndSector(files[0]) then Some(0)
    else match FindFile(files[1..], position)
      case None => None
      case Some(k) => Some(k + 1)
  }

  /** Every file ends by sector `limit`. */
  predicate EndsWithin(files: seq<DvdFile>, limit: int)
  {
    forall i :: 0 <= i < |files| ==> EndSector(files[i]) <= limit
  }

  // ---------------------------------------------------------------------
  // readSectors, on the media cursor
  // ---------------------------------------------------------------------

  /**
   * The read loop of readSectors, from position `start` with the cursor on
   * file `file0` of the layout. `result` is the number of sectors delivered
   * (-1 on a failure before any), `data` their contents, `next` and `file`
   * the new cursor.
   */
  method ReadLoop(disc: Disc, isOpen: bool, files: seq<DvdFile>, volumeSize: int, policy: BadSectorPolicy,
                  count0: int, start: int, file0: nat)
    returns (result: int, data: seq<seq<byte>>, next: int, file: nat)
    requires file0 <= |files|
    ensures start <= next && file0 <= file <= |files|
    ensures data == Gathered(disc, policy, start, next)
    ensures result == |data| || (result == -1 && data == [])
    ensures |data| <= (if count0 < 0 then 0 else count0)
    ensures policy == ErrorOnBadSectors ==> LongestBadRun(disc, start, next) == 0
    ensures LongestBadRun(disc, start, next) <= BadSectorRetry
    ensures isOpen && file0 < |files| && EndsWithin(files, volumeSize) && start <= volumeSize ==> next <= volumeSize
    ensures !isOpen && policy != SkipBadSectors && count0 > 0 ==> result == count0 || !Readable(disc, next)
  {
    var endSector := start + count0;
    if isOpen && endSector > volumeSize {
      endSector := volumeSize;
    }
    var count := count0;
    var badSectorMax := BadSectorRetry;
    ghost var bounded := isOpen && file0 < |files| && EndsWithin(files, volumeSize) && start <= volumeSize;
    result, data, next, file := 0, [], start, file0;
    while count > 0 && next < endSector
      invariant start <= next && file0 <= file <= |files|
      invariant data == Gathered(disc, policy, start, next) && result == |data|
      invariant |data| == count0 - count && (count0 > 0 ==> 0 <= count) && (count0 <= 0 ==> count == count0)
      invariant badSectorMax == BadSectorRetry - TrailingBad(disc, start, next)
      invariant LongestBadRun(disc, start, next) <= BadSectorRetry
      invariant policy == ErrorOnBadSectors ==> LongestBadRun(disc, start, next) == 0
      invariant bounded ==> next <= volumeSize && file < |files|
      decreases endSector - next
    {
      var readCount := count;
      if isOpen && file < |files| {
        var changed := false;
        while file < |files| && next >= EndSector(files[file])
          invariant file0 <= file <= |files|
          decreases |files| - file
        {
          file := file + 1;
          changed := true;
        }
        if file == |files| {
          break;
        }
        if changed && DeviceSeek(disc, next) < 0 {
          if result <= 0 {
            result, data := -1, [];
          }
          return;
        }
        readCount := if readCount < EndSector(files[file]) - next then readCount else EndSector(files[file]) - next;
      }
      var got, newNext, newSectorMax := ReadAtCursor(disc, policy, next, readCount, badSectorMax, start);
      if got < 0 {
        if result <= 0 {
          result, data := -1, [];
        }
        return;
      }
      data := data + Run(disc, newNext - got, newNext);
      next, badSectorMax := newNext, newSectorMax;
      result := result + got;
      count := count - got;
    }
    if policy != SkipBadSectors {
      GatheredLength(disc, policy, start, next);
    }
  }

  /**
   * One dvdcss_read of `readCount` sectors at the cursor `next` and, when it
   * fails, the bad sector policy. `got` sectors are delivered (-1 on an
   * unrecoverable error); SkipBadSectors passes over a bad sector without
   * delivering it, ReadBadSectorsAsZero delivers it as zeroes, and neither
   * passes over more than BadSectorRetry bad sectors in a row.
   */
  method ReadAtCursor(disc: Disc, policy: BadSectorPolicy, next: int, readCount: int, badSectorMax: int, ghost start: int)
    returns (got: int, newNext: int, newSectorMax: int)
    requires start <= next && 1 <= readCount
    requires badSectorMax == BadSectorRetry - TrailingBad(disc, start, next)
    requires LongestBadRun(disc, start, next) <= BadSectorRetry
    requires policy == ErrorOnBadSectors ==> LongestBadRun(disc, start, next) == 0
    ensures got >= -1
    ensures got >= 0 ==> next < newNext <= next + readCount && got <= newNext - next
    ensures got >= 0 ==> Gathered(disc, policy, start, newNext) == Gathered(disc, policy, start, next) + Run(disc, newNext - got, newNext)
    ensures got >= 0 ==> newSectorMax == BadSectorRetry - TrailingBad(disc, start, newNext)
    ensures got >= 0 ==> LongestBadRun(disc, start, newNext) <= BadSectorRetry
    ensures got >= 0 && policy == ErrorOnBadSectors ==> LongestBadRun(disc, start, newNext) == 0
    ensures got == -1 ==> !Readable(disc, next)
  {
    got := DeviceRead(disc, next, readCount);
    newNext, newSectorMax := next, badSectorMax;
    if got > 0 {
      newSectorMax := BadSectorRetry;
      ReadableRunAll(disc, next, readCount);
      GatheredReadable(disc, policy, start, next, next + got);
      ReadableKeepsLongest(disc, start, next, next + got);
    } else if policy != ErrorOnBadSectors && badSectorMax > 0 {
      if DeviceSeek(disc, next + 1) > 0 {
        newSectorMax := badSectorMax - 1;
        if policy == SkipBadSectors {
          got := 0;
          newNext := next + 1;
        } else {
          got := 1;
        }
      }
    }
    if got >= 0 {
      newNext := newNext + got;
    }
  }

  // ---------------------------------------------------------------------
  // Layout: sorting the files and filling the holes
  // ---------------------------------------------------------------------

  /** A file without a name covering the hole from sector `first` up to `end`. */
  function Placeholder(first: int, end: int): (r: DvdFile)
    requires first < end
    ensures r.name == "" && r.startSector == first && EndSector(r) == end
  {
    var r := DvdFile("", first, (end - first) * 2048);
    assert ((end - first) * 2048 + 2047) / 2048 == end - first;
    r
  }

  /**
   * The files in order, each preceded by a placeholder when it starts after
   * the end of the previous one (`last`).
   */
  function Fill(files: seq<DvdFile>, last: int): seq<DvdFile>
  {
    if |files| == 0 then []
    else
      var f := files[0];
      var hole := if f.startSector > last then [Placeholder(last, f.startSector)] else [];
      hole + [f] + Fill(files[1..], EndSector(f))
  }

  /** The end of the last file of `files`, `last` when there is none. */
  function LastEnd(files: seq<DvdFile>, last: int): int
  {
    if |files| == 0 then last else LastEnd(files[1..], EndSector(files[0]))
  }

  /** The layout of the media: the files with their holes filled up to sector `volumeSize`. */
  function WithPlaceholders(files: seq<DvdFile>, volumeSize: int): seq<DvdFile>
  {
    var end := LastEnd(files, 0);
    Fill(files, 0) + (if end < volumeSize then [Placeholder(end, volumeSize)] else [])
  }

  /** The placeholder loop of openFromDevice, over the sorted files. */
  method FillHoles(files: seq<DvdFile>, volumeSize: int) returns (all: seq<DvdFile>)
    ensures all == WithPlaceholders(files, volumeSize)
  {
    all := [];
    var lastSector := 0;
    var i := 0;
    while i < |files|
      invariant 0 <= i <= |files|
      invariant Fill(files, 0) == all + Fill(files[i..], lastSector)
      invariant LastEnd(files, 0) == LastEnd(files[i..], lastSector)
    {
      all, lastSector := PlaceFile(files, i, lastSector, all);
      i := i + 1;
    }
    assert files[i..] == [];
    if lastSector < volumeSize {
      all := all + [Placeholder(lastSector, volumeSize)];
    }
  }

  /** One turn of the placeholder loop: file `i`, preceded by a placeholder when it starts after `lastSector`. */
  method PlaceFile(files: seq<DvdFile>, i: nat, lastSector: int, all: seq<DvdFile>) returns (all': seq<DvdFile>, last': int)
    requires i < |files|
    ensures all + Fill(files[i..], lastSector) == all' + Fill(files[i + 1..], last')
    ensures LastEnd(files[i..], lastSector) == LastEnd(files[i + 1..], last')
  {
    var f := files[i];
    var hole := [];
    if f.startSector > lastSector {
      hole := [Placeholder(lastSector, f.startSector)];
    }
    FillStep(files, i, lastSector);
    AppendAssoc(all, hole + [f], Fill(files[i + 1..], EndSector(f)));
    all' := all + hole + [f];
    last' := EndSector(f);
  }

  lemma FillStep(files: seq<DvdFile>, i: nat, last: int)
    requires i < |files|
    ensures var f := files[i];
      var hole := if f.startSector > last then [Placeholder(last, f.startSector)] else [];
      Fill(files[i..], last) == hole + [f] + Fill(files[i + 1..], EndSector(f))
      && LastEnd(files[i..], last) == LastEnd(files[i + 1..], EndSector(f))
  {
    assert files[i..][1..] == files[i + 1..];
  }

  /** Each entry starts where the previous one ends. */
  predicate Chained(files: seq<DvdFile>)
  {
    forall k :: 0 < k < |files| ==> files[k].startSector == EndSector(files[k - 1])
  }

  /** Files in order that do not overlap (each starts at or after the end of the previous one). */
  predicate Disjoint(files: seq<DvdFile>)
  {
    forall k :: 0 < k < |files| ==> EndSector(files[k - 1]) <= files[k].startSector
  }

  lemma ChainedAppend(a: seq<DvdFile>, b: seq<DvdFile>)
    requires Chained(a) && Chained(b) && |a| > 0 && |b| > 0
    requires b[0].startSector == EndSector(a[|a| - 1])
    ensures Chained(a + b)
  {
    forall k | 0 < k < |a + b| ensures (a + b)[k].startSector == EndSector((a + b)[k - 1]) {
      if k > |a| {
        assert (a + b)[k] == b[k - |a|] && (a + b)[k - 1] == b[k - |a| - 1];
      }
    }
  }

  /** Filling the holes between disjoint files gives a gap-free run from `last` to their end. */
  lemma {:induction false} FillChained(files: seq<DvdFile>, last: int)
    requires Disjoint(files) && (|files| > 0 ==> last <= files[0].startSector)
    ensures var r := Fill(files, last);
      Chained(r) && (|r| == 0 <==> |files| == 0)
      && (|r| > 0 ==> r[0].startSector == last && EndSector(r[|r| - 1]) == LastEnd(files, last))
    decreases |files|
  {
    if |files| > 0 {
      var f := files[0];
      var rest := files[1..];
      var hole := if f.startSector > last then [Placeholder(last, f.startSector)] else [];
      assert Disjoint(rest) by {
        forall k | 0 < k < |rest| ensures EndSector(rest[k - 1]) <= rest[k].startSector {
          assert rest[k] == files[k + 1] && rest[k - 1] == files[k];
        }
      }
      if |rest| > 0 {
        assert rest[0] == files[1];
      }
      FillChained(rest, EndSector(f));
      var tail := Fill(rest, EndSector(f));
      assert Fill(files, last) == hole + [f] + tail;
      var head := hole + [f];
      assert Chained(head);
      if |tail| > 0 {
        ChainedAppend(head, tail);
      } else {
        assert LastEnd(rest, EndSector(f)) == EndSector(f);
      }
    }
  }

  /**
   * The media layout after opening: when the files do not overlap and start
   * at sector 0 or later, the layout runs from sector 0 without a gap and
   * ends at the volume size or at the end of the last file, whichever is
   * further.
   */
  lemma LayoutGapFree(files: seq<DvdFile>, volumeSize: int)
    requires Disjoint(files) && (|files| > 0 ==> files[0].startSector >= 0)
    ensures var all := WithPlaceholders(files, volumeSize);
      var end := LastEnd(files, 0);
      Chained(all)
      && (|all| > 0 ==> all[0].startSector == 0)
      && (|all| > 0 ==> EndSector(all[|all| - 1]) == (if end < volumeSize then volumeSize else end))
      && (|all| == 0 <==> |files| == 0 && volumeSize <= 0)
  {
    FillChained(files, 0);
    var r := Fill(files, 0);
    var end := LastEnd(files, 0);
    if end < volumeSize {
      var p := [Placeholder(end, volumeSize)];
      if |r| > 0 {
        ChainedAppend(r, p);
      } else {
        assert end == 0;
      }
    }
  }

  /** Every sector of a gap-free layout lies in one of its files. */
  lemma {:induction false} ChainedCovers(all: seq<DvdFile>, position: int)
    requires Chained(all) && |all| > 0
    requires all[0].startSector <= position < EndSector(all[|all| - 1])
    ensures FindFile(all, position).Some?
    decreases |all|
  {
    if !(all[0].startSector <= position < EndSector(all[0])) {
      var rest := all[1..];
      assert rest[0].startSector == EndSector(all[0]);
      assert Chained(rest) by {
        forall k | 0 < k < |rest| ensures rest[k].startSector == EndSector(rest[k - 1]) {
          assert rest[k] == all[k + 1] && rest[k - 1] == all[k];
        }
      }
      assert rest[|rest| - 1] == all[|all| - 1];
      ChainedCovers(rest, position);
    }
  }

  /** The files of a layout, without its placeholders. */
  function Named(all: seq<DvdFile>): seq<DvdFile>
  {
    if |all| == 0 then [] else (if all[0].name == "" then [] else [all[0]]) + Named(all[1..])
  }

  lemma {:induction false} NamedAppend(a: seq<DvdFile>, b: seq<DvdFile>)
    ensures Named(a + b) == Named(a) + Named(b)
    decreases |a|
  {
    if |a| > 0 {
      assert (a + b)[1..] == a[1..] + b;
      NamedAppend(a[1..], b);
    } else {
      assert a + b == b;
    }
  }

  /** Placeholders only add holes: the named files of the layout are the files, in order. */
  lemma {:induction false} FillKeepsFiles(files: seq<DvdFile>, last: int)
    requires forall k :: 0 <= k < |files| ==> files[k].name != ""
    ensures Named(Fill(files, last)) == files
    decreases |files|
  {
    if |files| > 0 {
      var f := files[0];
      var hole := if f.startSector > last then [Placeholder(last, f.startSector)] else [];
      FillKeepsFiles(files[1..], EndSector(f));
      NamedAppend(hole + [f], Fill(files[1..], EndSector(f)));
      NamedAppend(hole, [f]);
      assert Named([f]) == [f];
      assert files == [f] + files[1..];
    }
  }

  lemma LayoutKeepsFiles(files: seq<DvdFile>, volumeSize: int)
    requires forall k :: 0 <= k < |files| ==> files[k].name != ""
    ensures Named(WithPlaceholders(files, volumeSize)) == files
  {
    var end := LastEnd(files, 0);
    FillKeepsFiles(files, 0);
    var tail := if end < volumeSize then [Placeholder(end, volumeSize)] else [];
    NamedAppend(Fill(files, 0), tail);
    assert Named(tail) == [];
  }

  /** std::sort of the file list by start sector (an insertion sort). */
  function SortByStart(files: seq<DvdFile>): (r: seq<DvdFile>)
    ensures |r| == |files|
  {
    if |files| == 0 then [] else Insert(files[0], SortByStart(files[1..]))
  }

  function Insert(f: DvdFile, sorted: seq<DvdFile>): (r: seq<DvdFile>)
    ensures |r| == |sorted| + 1
  {
    if |sorted| == 0 || f.startSector <= sorted[0].startSector then [f] + sorted
    else [sorted[0]] + Insert(f, sorted[1..])
  }

  predicate SortedByStart(files: seq<DvdFile>)
  {
    forall k :: 0 < k < |files| ==> files[k - 1].startSector <= files[k].startSector
  }

  lemma {:induction false} InsertSorted(f: DvdFile, sorted: seq<DvdFile>)
    requires SortedByStart(sorted)
    ensures SortedByStart(Insert(f, sorted)) && multiset(Insert(f, sorted)) == multiset(sorted) + multiset{f}
    ensures |sorted| > 0 ==> Insert(f, sorted)[0] == f || Insert(f, sorted)[0] == sorted[0]
    decreases |sorted|
  {
    if |sorted| == 0 || f.startSector <= sorted[0].startSector {
      ConsSorted(f, sorted);
    } else {
      var rest := sorted[1..];
      SortedTail(sorted);
      InsertSorted(f, rest);
      ConsSorted(sorted[0], Insert(f, rest));
      assert sorted == [sorted[0]] + rest;
    }
  }

  /** Dropping the first file keeps a list sorted. */
  lemma SortedTail(sorted: seq<DvdFile>)
    requires SortedByStart(sorted) && |sorted| > 0
    ensures SortedByStart(sorted[1..])
  {
    var rest := sorted[1..];
    forall k | 0 < k < |rest| ensures rest[k - 1].startSector <= rest[k].startSector {
      assert rest[k] == sorted[k + 1] && rest[k - 1] == sorted[k];
    }
  }

  /** A file starting no later than the first of a sorted list can be put in front of it. */
  lemma ConsSorted(x: DvdFile, l: seq<DvdFile>)
    requires SortedByStart(l) && (|l| > 0 ==> x.startSector <= l[0].startSector)
    ensures SortedByStart([x] + l)
  {
    var r := [x] + l;
    forall k | 0 < k < |r| ensures r[k - 1].startSector <= r[k].startSector {
      assert r[k] == l[k - 1];
      if k > 1 {
        assert r[k - 1] == l[k - 2];
      }
    }
  }

  /** The sorted list is ordered by start sector and holds the same files. */
  lemma {:induction false} SortByStartSorted(files: seq<DvdFile>)
    ensures SortedByStart(SortByStart(files)) && multiset(SortByStart(files)) == multiset(files)
    decreases |files|
  {
    if |files| > 0 {
      var rest := SortByStart(files[1..]);
      SortByStartSorted(files[1..]);
      InsertSorted(files[0], rest);
      assert SortByStart(files) == Insert(files[0], rest);
      assert files == [files[0]] + files[1..];
      assert multiset(files) == multiset(files[1..]) + multiset{files[0]};
    }
  }

  // ---------------------------------------------------------------------
  // Directory records (ECMA-119 section 9.1)
  // ---------------------------------------------------------------------

  /** The fields of a directory record that readDirectoryStructure uses. */
  datatype DirRecord = DirRecord(name: string, isDirectory: bool, sector: int, size: int)

  /** A one-byte name 0x00 or 0x01: the record of the directory itself or of its parent. */
  predicate IsSelfOrParent(data: seq<byte>, index: int)
  {
    At(data, index + 32) == 1 && (At(data, index + 33) == 0 || At(data, index + 33) == 1)
  }

  /** The name without its version: everything from the first ';' on is removed. */
  function BeforeVersion(name: string): (r: string)
  {
    if |name| == 0 || name[0] == ';' then [] else [name[0]] + BeforeVersion(name[1..])
  }

  /** The name kept is a prefix without ';', and it stops only at a ';' or at the end. */
  lemma {:induction false} BeforeVersionCuts(name: string)
    ensures var r := BeforeVersion(name);
      |r| <= |name| && r == name[..|r|] && !HasChar(r, ';')
      && (|r| < |name| ==> name[|r|] == ';')
  {
    if |name| > 0 && name[0] != ';' {
      BeforeVersionCuts(name[1..]);
    }
  }

  /** The name of the record at `index`, without its version. */
  function RecordName(data: seq<byte>, index: nat): string
  {
    BeforeVersion(Latin1(data, index + 33, At(data, index + 32)))
  }

  /** The record at `index`: name length at +32, name at +33, flags at +25, extent at +2, size at +10. */
  function RecordAt(data: seq<byte>, index: nat): DirRecord
  {
    DirRecord(
      RecordName(data, index),
      (At(data, index + 25) / 2) % 2 == 1,
      I32(LE32(data, index + 2)),
      I32(LE32(data, index + 10)))
  }

  /**
   * The records from `index` on: they follow each other, each at least 34
   * bytes long (its length is its first byte), within the `size` bytes of
   * the directory; the records of the directory itself and of its parent
   * are passed over.
   */
  function RecordsFrom(data: seq<byte>, size: int, index: nat): seq<DirRecord>
    decreases size - index
  {
    var length := At(data, index);
    if length < 34 || index + length > size then []
    else EntryAt(data, index) + RecordsFrom(data, size, index + length)
  }

  /** The record at `index`, none for the records of the directory itself and of its parent. */
  function EntryAt(data: seq<byte>, index: nat): seq<DirRecord>
  {
    if IsSelfOrParent(data, index) then [] else [RecordAt(data, index)]
  }

  /** Each record takes at least 34 bytes of the directory. */
  lemma {:induction false} RecordsBound(data: seq<byte>, size: int, index: nat)
    ensures |RecordsFrom(data, size, index)| * 34 <= (if size > index then size - index else 0)
    decreases size - index
  {
    var length := At(data, index);
    if length >= 34 && index + length <= size {
      RecordsBound(data, size, index + length);
      RecordsStepLength(data, size, index);
      BoundStep(|RecordsFrom(data, size, index)|, |RecordsFrom(data, size, index + length)|, size, index, length);
    } else {
      RecordsEnd(data, size, index);
    }
  }

  /** One more record of `length` bytes keeps the count within the bytes. */
  lemma BoundStep(k: int, m: int, size: int, index: int, length: int)
    requires k <= 1 + m && length >= 34 && index + length <= size
    requires m * 34 <= (if size > index + length then size - (index + length) else 0)
    ensures k * 34 <= (if size > index then size - index else 0)
  {
  }

  /** No record is read from a length below 34 or one that overruns the directory. */
  lemma RecordsEnd(data: seq<byte>, size: int, index: nat)
    requires At(data, index) < 34 || index + At(data, index) > size
    ensures RecordsFrom(data, size, index) == []
  {
  }

  /** A record read adds at most one entry. */
  lemma RecordsStepLength(data: seq<byte>, size: int, index: nat)
    requires At(data, index) >= 34 && index + At(data, index) <= size
    ensures |RecordsFrom(data, size, index)| <= 1 + |RecordsFrom(data, size, index + At(data, index))|
  {
  }

  /** The record loop of readDirectoryStructure. */
  method ReadRecords(data: seq<byte>, size: int) returns (records: seq<DirRecord>)
    ensures records == RecordsFrom(data, size, 0)
  {
    records := [];
    var index: nat := 0;
    var more := true;
    while more
      invariant RecordsFrom(data, size, 0) == records + (if more then RecordsFrom(data, size, index) else [])
      decreases more, size - index
    {
      records, index, more := NextRecord(data, size, index, records);
    }
  }

  /** One turn of the record loop: the record at `index`, if there is one, and the index of the next. */
  method NextRecord(data: seq<byte>, size: int, index: nat, records: seq<DirRecord>) returns (records': seq<DirRecord>, next: nat, more: bool)
    ensures records + RecordsFrom(data, size, index) == records' + (if more then RecordsFrom(data, size, next) else [])
    ensures more ==> index < next <= size
  {
    var length := At(data, index);
    if length < 34 || index + length > size {
      assert RecordsFrom(data, size, index) == [];
      return records, index, false;
    }
    // The records of the directory itself and of its parent yield nothing.
    RecordsStep(data, size, index, records);
    records', next, more := records + EntryAt(data, index), index + length, true;
  }

  lemma RecordsStep(data: seq<byte>, size: int, index: nat, records: seq<DirRecord>)
    requires At(data, index) >= 34 && index + At(data, index) <= size
    ensures records + RecordsFrom(data, size, index)
      == (records + EntryAt(data, index)) + RecordsFrom(data, size, index + At(data, index))
  {
    AppendAssoc(records, EntryAt(data, index), RecordsFrom(data, size, index + At(data, index)));
  }

  /** The sectors that hold a directory of `size` bytes, with C++ truncating division. */
  function DirSectorCount(size: int): int
  {
    var q := if size >= 0 then size / 2048 else -((-size) / 2048);
    var rem := if size >= 0 then size % 2048 else -((-size) % 2048);
    q + (if rem != 0 then 1 else 0)
  }

  lemma DirSectorCountCovers(size: int)
    requires size >= 0
    ensures DirSectorCount(size) >= 0 && DirSectorCount(size) * 2048 >= size
  {
  }

  /** The bytes of the delivered sectors, one after the other. */
  function Flatten(sectors: seq<seq<byte>>): seq<byte>
  {
    if |sectors| == 0 then [] else Flatten(sectors[..|sectors| - 1]) + sectors[|sectors| - 1]
  }

  /** A zero-filled buffer of `n` bytes into which `s` was copied. */
  function PadTo(s: seq<byte>, n: int): (r: seq<byte>)
    ensures |r| == if n < 0 then 0 else n
  {
    if n <= 0 then [] else if |s| >= n then s[..n] else s + seq(n - |s|, k => 0)
  }

  /**
   * The listing of one directory as readDirectoryStructure obtains it, AS
   * WRITTEN: `if (!readSectors(...))` rejects only a result of 0, so the
   * failure result -1 and a short read pass the test.
   */
  function ListingAsWritten(n: int, sectors: seq<seq<byte>>, size: int): (r: Option<seq<DirRecord>>)
    ensures r.None? <==> n == 0
  {
    if n == 0 then None else Some(RecordsFrom(PadTo(Flatten(sectors), DirSectorCount(size) * 2048), size, 0))
  }

  /**
   * The listing of one directory when the read must deliver every sector of
   * the directory (and, as written, at least one).
   */
  function Listing(n: int, sectors: seq<seq<byte>>, size: int): (r: Option<seq<DirRecord>>)
    ensures r.None? <==> n <= 0 || n < DirSectorCount(size)
    ensures r.Some? ==> r.value == RecordsFrom(PadTo(Flatten(sectors), DirSectorCount(size) * 2048), size, 0)
  {
    if n <= 0 || n < DirSectorCount(size) then None else Some(RecordsFrom(PadTo(Flatten(sectors), DirSectorCount(size) * 2048), size, 0))
  }

  /** The corrected test rejects every read the written test rejects, and only adds the failed and short reads. */
  lemma ListingRefines(n: int, sectors: seq<seq<byte>>, size: int)
    ensures Listing(n, sectors, size).Some? ==> ListingAsWritten(n, sectors, size) == Listing(n, sectors, size)
    ensures ListingAsWritten(n, sectors, size).Some? && Listing(n, sectors, size).None? ==> n < 0 || n < DirSectorCount(size)
  {
  }

  /**
   * A directory that could not be read at all (readSectors returned -1 and
   * delivered nothing) passes as an empty directory as written, and is an
   * error once every sector is required.
   */
  lemma UnreadDirectoryLooksEmpty(size: int)
    requires size > 0
    ensures ListingAsWritten(-1, [], size) == Some([])
    ensures Listing(-1, [], size).None?
  {
    var buffer := PadTo(Flatten([]), DirSectorCount(size) * 2048);
    assert At(buffer, 0) == 0;
  }

  // ---------------------------------------------------------------------
  // Video title set file names
  // ---------------------------------------------------------------------

  /**
   * vtsInformationFileNumber: the title set number nn of a file named
   * VTS_nn_0.IFO (in any case), converted by qtlToInt; -1 otherwise.
   */
  function VtsInformationFileNumber(fileName: string): (r: int)
    ensures -1 <= r <= 99
    ensures r >= 0 ==> |FileName(fileName)| == 12
  {
    var name := FileName(fileName);
    if |name| == 12 && ToUpper(name[..4]) == "VTS_" && ToUpper(name[6..]) == "_0.IFO" then
      TwoCharsToInt(name[4..6]);
      QtlToInt(name[4..6], -1, 0, IntMax)
    else -1
  }

  /** A number read from two characters is at most 99. */
  lemma TwoCharsToInt(s: string)
    requires |s| == 2
    ensures QtlToInt(s, -1, 0, IntMax) <= 99
  {
    var t := RemoveBlanks(s);
    var digits := if |t| > 0 && (t[0] == '-' || t[0] == '+') then t[1..] else t;
    if |digits| > 0 && AllDigits(digits) {
      ShortDigits(digits);
    }
  }

  lemma ShortDigits(d: string)
    requires AllDigits(d) && |d| <= 2
    ensures DigitsValue(d) <= 99
  {
    if |d| > 0 {
      var p := d[..|d| - 1];
      assert AllDigits(p);
      if |p| > 0 {
        assert p[..|p| - 1] == [];
      }
    }
  }

  /** QString::arg(n, 2, 10, '0'): the decimal text of `n`, with a leading zero when it has one character. */
  function Arg2(n: int): (r: string)
  {
    var text := NumberText(n);
    if |text| < 2 then "0" + text else text
  }

  /** vtsInformationFileName: VIDEO_TS/VTS_nn_0.IFO, under the root directory when there is one. */
  function VtsInformationFileName(rootName: string, vtsNumber: int): string
  {
    var name := "VIDEO_TS/VTS_" + Arg2(vtsNumber) + "_0.IFO";
    if rootName == "" then name else rootName + "/" + name
  }

  /** The two-character title set numbers: -9..99. */
  lemma Arg2Facts(n: int)
    ensures !HasChar(Arg2(n), '/') && forall i :: 0 <= i < |Arg2(n)| ==> !IsSpace(Arg2(n)[i]) && Arg2(n)[i] != '_'
    ensures |Arg2(n)| == 2 <==> -9 <= n <= 99
    ensures 0 <= n <= 99 ==> QtlToInt(Arg2(n), -1, 0, IntMax) == n
    ensures -9 <= n < 0 ==> QtlToInt(Arg2(n), -1, 0, IntMax) == -1
  {
    Arg2Chars(n);
    if 0 <= n <= 9 {
      Arg2Small(n);
    } else if 10 <= n <= 99 {
      NumberTextToInt(n, -1, 0, IntMax);
    } else if -9 <= n < 0 {
      Arg2Negative(n);
    }
  }

  /** Arg2 writes only digits and the minus sign. */
  lemma Arg2Chars(n: int)
    ensures forall i :: 0 <= i < |Arg2(n)| ==> IsDigit(Arg2(n)[i]) || Arg2(n)[i] == '-'
  {
    var text := NumberText(n);
    var d := DecimalText(if n < 0 then -n else n);
    assert forall i :: 0 <= i < |text| ==> IsDigit(text[i]) || text[i] == '-' by {
      forall i | 0 <= i < |text| ensures IsDigit(text[i]) || text[i] == '-' {
        if n < 0 && i > 0 {
          assert text[i] == d[i - 1];
        }
      }
    }
    var a := Arg2(n);
    forall i | 0 <= i < |a| ensures IsDigit(a[i]) || a[i] == '-' {
      if |text| < 2 && i > 0 {
        assert a[i] == text[i - 1];
      }
    }
  }

  /** 0..9 is written with a leading zero, and read back. */
  lemma Arg2Small(n: int)
    requires 0 <= n <= 9
    ensures Arg2(n) == ['0', DigitChar(n)]
    ensures QtlToInt(Arg2(n), -1, 0, IntMax) == n
  {
    var a := ['0', DigitChar(n)];
    assert Arg2(n) == a;
    RemoveBlanksNone(a);
    assert a[..1] == ['0'] && a[..1][..0] == [];
    assert DigitsValue(a[..1]) == 0;
    assert a[1] as int - '0' as int == n;
    assert DigitsValue(a) == n;
  }

  /** -1..-9 is written as a minus sign and a digit, and read back as no number of 0..IntMax. */
  lemma Arg2Negative(n: int)
    requires -9 <= n < 0
    ensures Arg2(n) == ['-', DigitChar(-n)]
    ensures QtlToInt(Arg2(n), -1, 0, IntMax) == -1
  {
    var a := ['-', DigitChar(-n)];
    assert Arg2(n) == a;
    RemoveBlanksNone(a);
    assert a[1..] == [DigitChar(-n)] && a[1..][..0] == [];
    assert DigitsValue(a[1..]) == -n;
  }

  lemma VtsLiterals()
    ensures ToUpper("VTS_") == "VTS_" && ToUpper("_0.IFO") == "_0.IFO"
    ensures "VIDEO_TS/VTS_" == "VIDEO_TS" + ['/'] + "VTS_"
  {
  }

  /** The file name of `prefix/base`, for a base name without separator. */
  lemma FileNameAfterSeparator(prefix: string, base: string)
    requires !HasChar(base, '/')
    ensures FileName(prefix + ['/'] + base) == base
  {
    AfterLastOfAppend(prefix, base, '/');
  }

  /** A base name VTS_a_0.IFO holds no separator when `a` holds none. */
  lemma VtsBaseName(a: string)
    requires !HasChar(a, '/')
    ensures var base := "VTS_" + a + "_0.IFO";
      !HasChar(base, '/') && |base| == 10 + |a|
      && (|a| == 2 ==> base[..4] == "VTS_" && base[4..6] == a && base[6..] == "_0.IFO")
  {
    var base := "VTS_" + a + "_0.IFO";
    forall i | 0 <= i < |base| ensures base[i] != '/' {
      if 4 <= i < 4 + |a| {
        assert base[i] == a[i - 4];
      }
    }
  }

  /**
   * vtsInformationFileName and vtsInformationFileNumber are inverse: the
   * name built for a title set number 0..99 is read back as that number,
   * and the name of any other number is not a title set information file.
   */
  lemma VtsNameRoundTrip(rootName: string, n: int)
    ensures VtsInformationFileNumber(VtsInformationFileName(rootName, n)) == (if 0 <= n <= 99 then n else -1)
  {
    var a := Arg2(n);
    Arg2Facts(n);
    var prefix := VtsNamePrefix(rootName, a);
    VtsNumberOfPath(prefix, a);
  }

  /** The directory part of a title set information file name. */
  lemma VtsNamePrefix(rootName: string, a: string) returns (prefix: string)
    ensures (if rootName == "" then "VIDEO_TS/VTS_" + a + "_0.IFO" else rootName + "/" + ("VIDEO_TS/VTS_" + a + "_0.IFO"))
      == prefix + ['/'] + ("VTS_" + a + "_0.IFO")
  {
    VtsLiterals();
    prefix := if rootName == "" then "VIDEO_TS" else rootName + "/" + "VIDEO_TS";
    var base := "VTS_" + a + "_0.IFO";
    assert "VIDEO_TS/VTS_" + a + "_0.IFO" == "VIDEO_TS" + ['/'] + base;
  }

  lemma VtsNumberOfPath(prefix: string, a: string)
    requires !HasChar(a, '/')
    ensures VtsInformationFileNumber(prefix + ['/'] + ("VTS_" + a + "_0.IFO")) == (if |a| == 2 then QtlToInt(a, -1, 0, IntMax) else -1)
  {
    var base := "VTS_" + a + "_0.IFO";
    VtsBaseName(a);
    VtsLiterals();
    FileNameAfterSeparator(prefix, base);
  }

  // ---------------------------------------------------------------------
  // The directory tree
  // ---------------------------------------------------------------------

  /** An entry of a directory, with its name as recorded (without version). */
  datatype Entry = FileEntry(name: string, file: DvdFile) | DirEntry(name: string, dir: Directory)

  /** A directory of the media, its entries in the order of its records. */
  datatype Directory = Directory(path: string, startSector: int, sizeInBytes: int, entries: seq<Entry>)

  /** The path of a child: the name under the parent path, separated by '/' unless the parent is the root. */
  function Child(parent: string, name: string): (r: string)
    ensures parent == "" ==> r == name
  {
    if parent == "" then name else parent + "/" + name
  }

  /** Every file under the entries, depth first, in the order of the records. */
  function FilesIn(entries: seq<Entry>): seq<DvdFile>
    decreases entries
  {
    if |entries| == 0 then []
    else
      var e := entries[|entries| - 1];
      FilesIn(entries[..|entries| - 1]) + (match e
        case FileEntry(_, f) => [f]
        case DirEntry(_, d) => FilesIn(d.entries))
  }

  /**
   * The video title set information files (VTS_nn_0.IFO) under the entries
   * that are counted: those directly in the VIDEO_TS directory of the root
   * (`inVideoTs`); `inRoot` marks the entries of the root directory.
   */
  function VtsIn(entries: seq<Entry>, inRoot: bool, inVideoTs: bool): (r: nat)
    decreases entries
  {
    if |entries| == 0 then 0
    else
      var e := entries[|entries| - 1];
      VtsIn(entries[..|entries| - 1], inRoot, inVideoTs) + (match e
        case FileEntry(name, _) => if inVideoTs && VtsInformationFileNumber(name) >= 0 then 1 else 0
        case DirEntry(name, d) => VtsIn(d.entries, false, inRoot && ToUpper(name) == "VIDEO_TS"))
  }

  /** The number of directory levels below the entries. */
  function Nesting(entries: seq<Entry>): (r: nat)
    decreases entries
  {
    if |entries| == 0 then 0
    else
      var e := entries[|entries| - 1];
      var n := Nesting(entries[..|entries| - 1]);
      var m := match e
        case FileEntry(_, _) => 0
        case DirEntry(_, d) => 1 + Nesting(d.entries);
      if m > n then m else n
  }

  /** Each entry carries its path under `path`: files by name, directories by path. */
  predicate PathsUnder(path: string, entries: seq<Entry>)
  {
    forall k :: 0 <= k < |entries| ==> match entries[k]
      case FileEntry(name, f) => f.name == Child(path, name)
      case DirEntry(name, d) => d.path == Child(path, name)
  }

  /** No title set information file is counted outside the VIDEO_TS directory of the root. */
  lemma {:induction false} VtsOnlyInVideoTs(entries: seq<Entry>)
    ensures VtsIn(entries, false, false) == 0
    decreases entries
  {
    if |entries| > 0 {
      VtsOnlyInVideoTs(entries[..|entries| - 1]);
      match entries[|entries| - 1]
      case FileEntry(_, _) =>
      case DirEntry(_, d) => VtsOnlyInVideoTs(d.entries);
    }
  }

  /** Counted title set files are files of the tree: there are never more of them than files. */
  lemma {:induction false} VtsAtMostFiles(entries: seq<Entry>, inRoot: bool, inVideoTs: bool)
    ensures VtsIn(entries, inRoot, inVideoTs) <= |FilesIn(entries)|
    decreases entries
  {
    if |entries| > 0 {
      VtsAtMostFiles(entries[..|entries| - 1], inRoot, inVideoTs);
      match entries[|entries| - 1]
      case FileEntry(_, _) =>
      case DirEntry(name, d) => VtsAtMostFiles(d.entries, false, inRoot && ToUpper(name) == "VIDEO_TS");
    }
  }

  // ---------------------------------------------------------------------
  // The volume descriptors (ECMA-119 sections 6.7.1 and 8.4)
  // ---------------------------------------------------------------------

  /** What the volume descriptor set tells: no primary descriptor, or the primary one. */
  datatype VolumeScan = NoPrimary | Primary(volumeId: string, volumeSize: int, rootSector: int, rootSize: int)

  /**
   * The primary volume descriptor in `d`: the volume identifier at 40 (32
   * characters, trimmed), the volume size at 80, and the extent and size of
   * the root directory from the root directory record at 156, or -1 when
   * that record is not 34 bytes long.
   */
  function PrimaryOf(d: seq<byte>): (r: VolumeScan)
    ensures r.Primary? && r.volumeSize == I32(LE32(d, 80))
    ensures At(d, RootDirDescOffset) != RootDirDescSize ==> r.rootSector == -1 && r.rootSize == -1
  {
    var hasRoot := At(d, RootDirDescOffset) == RootDirDescSize;
    Primary(Trim(Latin1(d, 40, 32)), I32(LE32(d, 80)),
      if hasRoot then I32(LE32(d, RootDirDescOffset + 2)) else -1,
      if hasRoot then I32(LE32(d, RootDirDescOffset + 10)) else -1)
  }

  /**
   * The descriptors from `sector` on, at most `count` of them: the scan stops
   * at an unreadable sector, at a sector without the CD001 identifier, at
   * the set terminator, and at the primary descriptor.
   */
  function ScanDescriptors(disc: Disc, sector: int, count: nat): VolumeScan
    decreases count
  {
    if count == 0 || !Readable(disc, sector) then NoPrimary
    else
      var d := disc[sector].value;
      if Latin1(d, 1, 5) != VolumeDescriptorId then NoPrimary
      else if At(d, 0) == VolDescTypeTerminator then NoPrimary
      else if At(d, 0) == VolDescTypePrimary then PrimaryOf(d)
      else ScanDescriptors(disc, sector + 1, count - 1)
  }

  /** One step of the scan, from what reading `sector` gave. */
  lemma ScanStep(disc: Disc, sector: int, count: nat, ok: bool, d: seq<byte>)
    requires count > 0
    requires ok ==> Readable(disc, sector) && d == disc[sector].value
    requires !ok ==> !Readable(disc, sector)
    ensures !ok ==> ScanDescriptors(disc, sector, count) == NoPrimary
    ensures ok && (Latin1(d, 1, 5) != VolumeDescriptorId || At(d, 0) == VolDescTypeTerminator) ==>
      ScanDescriptors(disc, sector, count) == NoPrimary
    ensures ok && Latin1(d, 1, 5) == VolumeDescriptorId && At(d, 0) != VolDescTypeTerminator && At(d, 0) == VolDescTypePrimary ==>
      ScanDescriptors(disc, sector, count) == PrimaryOf(d)
    ensures ok && Latin1(d, 1, 5) == VolumeDescriptorId && At(d, 0) != VolDescTypeTerminator && At(d, 0) != VolDescTypePrimary ==>
      ScanDescriptors(disc, sector, count) == ScanDescriptors(disc, sector + 1, count - 1)
  {
  }

  /** A media whose first descriptor is the terminator has no primary volume descriptor. */
  lemma TerminatorFirst(disc: Disc, count: nat)
    requires Readable(disc, VolumeDescriptorsSector) && count > 0
    requires var d := disc[VolumeDescriptorsSector].value; Latin1(d, 1, 5) == VolumeDescriptorId && At(d, 0) == VolDescTypeTerminator
    ensures ScanDescriptors(disc, VolumeDescriptorsSector, count) == NoPrimary
  {
  }

  /**
   * A primary descriptor found by the scan is one of the `count` sectors from
   * `sector` on, readable, with the CD001 identifier and type 1.
   */
  lemma {:induction false} ScanFindsPrimary(disc: Disc, sector: int, count: nat) returns (at: int)
    requires ScanDescriptors(disc, sector, count).Primary?
    ensures sector <= at < sector + count && Readable(disc, at)
    ensures PrimaryDescriptor(disc[at].value)
    ensures ScanDescriptors(disc, sector, count) == PrimaryOf(disc[at].value)
    decreases count
  {
    ScanPrimaryStep(disc, sector, count);
    if At(disc[sector].value, 0) == VolDescTypePrimary {
      at := sector;
    } else {
      at := ScanFindsPrimary(disc, sector + 1, count - 1);
    }
  }

  /** A sector holding a primary volume descriptor: the CD001 identifier and type 1. */
  predicate PrimaryDescriptor(d: seq<byte>)
  {
    Latin1(d, 1, 5) == VolumeDescriptorId && At(d, 0) == VolDescTypePrimary
  }

  /** A scan that finds a primary descriptor either stops at `sector` on it or goes on past a readable descriptor of another type. */
  lemma ScanPrimaryStep(disc: Disc, sector: int, count: nat)
    requires ScanDescriptors(disc, sector, count).Primary?
    ensures count > 0 && Readable(disc, sector)
    ensures At(disc[sector].value, 0) == VolDescTypePrimary ==>
      PrimaryDescriptor(disc[sector].value) && ScanDescriptors(disc, sector, count) == PrimaryOf(disc[sector].value)
    ensures At(disc[sector].value, 0) != VolDescTypePrimary ==>
      ScanDescriptors(disc, sector, count) == ScanDescriptors(disc, sector + 1, count - 1)
  {
  }

  /**
   * One sector asked of readSectors without bad sector tolerance: either it
   * was read, and the buffer holds its contents, or it cannot be read and
   * the cursor has not moved.
   */
  lemma SingleRead(disc: Disc, s: int, next: int, result: int, data: seq<seq<byte>>)
    requires s <= next && data == Gathered(disc, ErrorOnBadSectors, s, next) && LongestBadRun(disc, s, next) == 0
    requires result == |data| || (result == -1 && data == [])
    requires |data| <= 1
    requires result == 1 || !Readable(disc, next)
    ensures result == 1 ==> next == s + 1 && Readable(disc, s) && data == [disc[s].value]
    ensures result != 1 ==> next == s && !Readable(disc, s)
  {
    GatheredLength(disc, ErrorOnBadSectors, s, next);
    if result == 1 {
      GatheredAt(disc, ErrorOnBadSectors, s, next, 0);
      NoBadRun(disc, s, next, s);
    }
  }

  /** Appending one entry to a directory adds its files, its counted title set files and its levels. */
  lemma EntriesAppend(entries: seq<Entry>, e: Entry, inRoot: bool, inVideoTs: bool, path: string)
    ensures FilesIn(entries + [e]) == FilesIn(entries) + FilesIn([e])
    ensures VtsIn(entries + [e], inRoot, inVideoTs) == VtsIn(entries, inRoot, inVideoTs) + VtsIn([e], inRoot, inVideoTs)
    ensures Nesting(entries + [e]) == (if Nesting([e]) > Nesting(entries) then Nesting([e]) else Nesting(entries))
    ensures PathsUnder(path, entries) && PathsUnder(path, [e]) ==> PathsUnder(path, entries + [e])
  {
    assert (entries + [e])[..|entries|] == entries;
    assert [e][..0] == [];
    if PathsUnder(path, entries) && PathsUnder(path, [e]) {
      forall k | 0 <= k < |entries + [e]|
        ensures match (entries + [e])[k]
          case FileEntry(name, f) => f.name == Child(path, name)
          case DirEntry(name, d) => d.path == Child(path, name)
      {
        if k == |entries| {
          assert (entries + [e])[k] == [e][0];
        } else {
          assert (entries + [e])[k] == entries[k];
        }
      }
    }
  }

  /** The files of one more entry come after those of the entries before it. */
  lemma FilesAppend(before: seq<DvdFile>, entries: seq<Entry>, e: Entry)
    ensures before + FilesIn(entries) + FilesIn([e]) == before + FilesIn(entries + [e])
  {
    assert (entries + [e])[..|entries|] == entries;
    assert [e][..0] == [];
  }

  /** The entry that directory record `r` under `parent` gives. */
  predicate EntryOf(parent: string, r: DirRecord, e: Entry)
  {
    e.name == r.name
    && match e
      case FileEntry(_, f) => !r.isDirectory && f == DvdFile(Child(parent, r.name), r.sector, r.size)
      case DirEntry(_, d) => r.isDirectory && d.path == Child(parent, r.name) && d.startSector == r.sector && d.sizeInBytes == r.size
  }

  /**
   * The first sector read for directory `d`: its start sector, or the
   * cursor when that is negative, since readSectors reads from the current
   * position for a negative position.
   */
  function DirStart(d: Directory, cursor: int): int
  {
    if d.startSector >= 0 then d.startSector else cursor
  }

  /** The cursor after walking `entries` from `cursor`: each subdirectory read moves it past that directory's sectors. */
  function WalkEnd(entries: seq<Entry>, cursor: int): int
    decreases entries
  {
    if |entries| == 0 then cursor
    else
      var c := WalkEnd(entries[..|entries| - 1], cursor);
      match entries[|entries| - 1]
        case FileEntry(_, _) => c
        case DirEntry(_, d) => WalkEnd(d.entries, DirStart(d, c) + DirSectorCount(d.sizeInBytes))
  }

  /** Every sector of a..b-1 can be read. */
  predicate AllReadable(disc: Disc, a: int, b: int)
  {
    forall k :: a <= k < b ==> Readable(disc, k)
  }

  /**
   * The records of the directory of `size` bytes at `start` as read from
   * the disc with the cursor at `cursor`: None when one of its sectors
   * cannot be read or the listing fails.
   */
  function DiscListing(disc: Disc, start: int, size: int, cursor: int): (r: Option<seq<DirRecord>>)
  {
    var s := if start >= 0 then start else cursor;
    var n := DirSectorCount(size);
    match DiscRun(disc, s, s + n)
    case None => None
    case Some(run) => Listing(n, run, size)
  }

  /** The contents of sectors a..b-1 when every one of them can be read, None otherwise. */
  function DiscRun(disc: Disc, a: int, b: int): Option<seq<seq<byte>>>
    decreases b - a
  {
    if b <= a then Some([])
    else match DiscRun(disc, a, b - 1)
      case None => None
      case Some(run) => if Readable(disc, b - 1) then Some(run + [Contents(disc, b - 1)]) else None
  }

  /** DiscRun delivers exactly when every sector is readable, and then it delivers their contents. */
  lemma {:induction false} DiscRunReadable(disc: Disc, a: int, b: int)
    ensures DiscRun(disc, a, b).Some? <==> AllReadable(disc, a, b)
    ensures DiscRun(disc, a, b).Some? ==> DiscRun(disc, a, b).value == Run(disc, a, b)
    decreases b - a
  {
    if b > a {
      DiscRunReadable(disc, a, b - 1);
    }
  }

  /**
   * A directory read whole with an error on bad sectors (no bad sector
   * passed, one sector gathered per sector of the directory): its listing
   * on the disc is the one of the gathered sectors.
   */
  lemma WholeDirectoryRead(disc: Disc, dir: Directory, cursor: int, end: int)
    requires 0 < DirSectorCount(dir.sizeInBytes) == end - DirStart(dir, cursor)
    requires LongestBadRun(disc, DirStart(dir, cursor), end) == 0
    ensures DiscListing(disc, dir.startSector, dir.sizeInBytes, cursor)
      == Listing(end - DirStart(dir, cursor), Gathered(disc, ErrorOnBadSectors, DirStart(dir, cursor), end), dir.sizeInBytes)
  {
    GatheredNoBad(disc, DirStart(dir, cursor), end);
  }

  /** With no bad sector in start..end-1, what an error-on-bad read gathers is the contents DiscRun delivers. */
  lemma {:induction false} GatheredNoBad(disc: Disc, start: int, end: int)
    requires start <= end && LongestBadRun(disc, start, end) == 0
    ensures DiscRun(disc, start, end) == Some(Gathered(disc, ErrorOnBadSectors, start, end))
    decreases end - start
  {
    if end > start {
      GatheredNoBad(disc, start, end - 1);
      NoBadRun(disc, start, end, end - 1);
    }
  }

  /** The entries are those of the records under `parent`, one for one. */
  predicate EntriesOf(parent: string, records: seq<DirRecord>, entries: seq<Entry>)
  {
    |entries| == |records| && forall k :: 0 <= k < |records| ==> EntryOf(parent, records[k], entries[k])
  }

  /** The entry of one more record, after the entries of the records before it. */
  lemma EntriesOfAppend(parent: string, records: seq<DirRecord>, entries: seq<Entry>, e: Entry, i: int)
    requires 0 <= i < |records| && EntriesOf(parent, records[..i], entries) && EntryOf(parent, records[i], e)
    ensures EntriesOf(parent, records[..i + 1], entries + [e])
  {
    assert records[..i + 1] == records[..i] + [records[i]];
  }

  /** The level of directory `d` itself: within the depth limit, and its entries those of its records on the disc. */
  predicate LevelRead(disc: Disc, d: Directory, depth: int, cursor: int)
  {
    depth <= MaxDirectoryDepth && DiscListing(disc, d.startSector, d.sizeInBytes, cursor).Some?
    && EntriesOf(d.path, DiscListing(disc, d.startSector, d.sizeInBytes, cursor).value, d.entries)
  }

  /**
   * Every subdirectory among `entries`, read at `depth` by the walk that
   * starts with the cursor at `cursor`, is what the disc holds, and so is
   * its whole tree.
   */
  predicate SubsRead(disc: Disc, entries: seq<Entry>, depth: int, cursor: int)
    decreases entries, 0
  {
    |entries| == 0
    || (SubsRead(disc, entries[..|entries| - 1], depth, cursor)
        && match entries[|entries| - 1]
          case FileEntry(_, _) => true
          case DirEntry(_, d) => ReadFrom(disc, d, depth, WalkEnd(entries[..|entries| - 1], cursor)))
  }

  /**
   * Directory `d`, read at `depth` with the cursor at `cursor`, is what the
   * disc holds: every one of its sectors is readable, its entries are the
   * records of its listing one for one, and each subdirectory is in turn
   * what the disc holds, read one level deeper with the cursor where the
   * walk leaves it.
   */
  predicate ReadFrom(disc: Disc, d: Directory, depth: int, cursor: int)
    decreases d.entries, 1
  {
    LevelRead(disc, d, depth, cursor) && SubsRead(disc, d.entries, depth + 1, DirStart(d, cursor) + DirSectorCount(d.sizeInBytes))
  }

  /** A directory whose own level and whose subdirectories, from where its sectors end, are read, is read. */
  lemma ReadFromLevels(disc: Disc, d: Directory, depth: int, cursor: int, end: int)
    requires LevelRead(disc, d, depth, cursor)
    requires end == DirStart(d, cursor) + DirSectorCount(d.sizeInBytes)
    requires SubsRead(disc, d.entries, depth + 1, end)
    ensures ReadFrom(disc, d, depth, cursor)
  {
  }

  /** A directory read from the disc had every one of its sectors readable. */
  lemma ReadFromReadable(disc: Disc, d: Directory, depth: int, cursor: int)
    requires ReadFrom(disc, d, depth, cursor)
    ensures depth <= MaxDirectoryDepth
    ensures AllReadable(disc, DirStart(d, cursor), DirStart(d, cursor) + DirSectorCount(d.sizeInBytes))
  {
    DiscRunReadable(disc, DirStart(d, cursor), DirStart(d, cursor) + DirSectorCount(d.sizeInBytes));
  }

  /**
   * The disc determines the tree: two directories with the same path,
   * start sector and size that are both read from the disc at the same
   * depth with the same cursor are the same directory.
   */
  lemma {:induction false} ReadFromUnique(disc: Disc, d1: Directory, d2: Directory, depth: int, cursor: int)
    requires ReadFrom(disc, d1, depth, cursor) && ReadFrom(disc, d2, depth, cursor)
    requires d1.path == d2.path && d1.startSector == d2.startSector && d1.sizeInBytes == d2.sizeInBytes
    ensures d1 == d2
    decreases d1.entries, 1
  {
    var records := DiscListing(disc, d1.startSector, d1.sizeInBytes, cursor).value;
    EntriesUnique(disc, d1.path, records, d1.entries, d2.entries, depth + 1, DirStart(d1, cursor) + DirSectorCount(d1.sizeInBytes));
  }

  /** The entries of the same records, each subdirectory read from the disc, are the same entries. */
  lemma {:induction false} EntriesUnique(disc: Disc, parent: string, records: seq<DirRecord>, es1: seq<Entry>, es2: seq<Entry>, depth: int, cursor: int)
    requires EntriesOf(parent, records, es1) && EntriesOf(parent, records, es2)
    requires SubsRead(disc, es1, depth, cursor) && SubsRead(disc, es2, depth, cursor)
    ensures es1 == es2
    decreases es1, 0
  {
    if |es1| > 0 {
      var n := |es1| - 1;
      EntriesOfPrefix(parent, records, es1, n);
      EntriesOfPrefix(parent, records, es2, n);
      SubsReadPrefix(disc, es1, n, depth, cursor);
      SubsReadPrefix(disc, es2, n, depth, cursor);
      EntriesUnique(disc, parent, records[..n], es1[..n], es2[..n], depth, cursor);
      LastEntryRead(disc, es1, depth, cursor);
      LastEntryRead(disc, es2, depth, cursor);
      assert EntryOf(parent, records[n], es1[n]) && EntryOf(parent, records[n], es2[n]);
      if es1[n].DirEntry? {
        ReadFromUnique(disc, es1[n].dir, es2[n].dir, depth, WalkEnd(es1[..n], cursor));
      }
      SnocEqual(es1, es2);
    }
  }

  /** The last of the entries read, if a directory, is read from where the walk of the ones before it ends. */
  lemma LastEntryRead(disc: Disc, entries: seq<Entry>, depth: int, cursor: int)
    requires SubsRead(disc, entries, depth, cursor) && |entries| > 0
    ensures entries[|entries| - 1].DirEntry? ==>
      ReadFrom(disc, entries[|entries| - 1].dir, depth, WalkEnd(entries[..|entries| - 1], cursor))
  {
  }

  /** Two sequences with the same prefix and the same last element are equal. */
  lemma SnocEqual<T>(a: seq<T>, b: seq<T>)
    requires |a| == |b| > 0 && a[..|a| - 1] == b[..|b| - 1] && a[|a| - 1] == b[|b| - 1]
    ensures a == b
  {
    assert a == a[..|a| - 1] + [a[|a| - 1]];
    assert b == b[..|b| - 1] + [b[|b| - 1]];
  }

  /** The entries of a prefix of the records are the same prefix of the entries. */
  lemma EntriesOfPrefix(parent: string, records: seq<DirRecord>, entries: seq<Entry>, n: int)
    requires EntriesOf(parent, records, entries) && 0 <= n <= |records|
    ensures EntriesOf(parent, records[..n], entries[..n])
  {
  }

  /** A directory with a start sector is read the same whatever the cursor. */
  lemma ReadFromAnyCursor(disc: Disc, d: Directory, depth: int, c1: int, c2: int)
    requires d.startSector >= 0
    ensures ReadFrom(disc, d, depth, c1) <==> ReadFrom(disc, d, depth, c2)
  {
    assert DirStart(d, c1) == DirStart(d, c2);
    assert DiscListing(disc, d.startSector, d.sizeInBytes, c1) == DiscListing(disc, d.startSector, d.sizeInBytes, c2);
  }

  /** A single entry is read when, if it is a directory, its tree is what the disc holds. */
  lemma SubsReadOne(disc: Disc, e: Entry, depth: int, cursor: int)
    ensures SubsRead(disc, [e], depth, cursor) <==> (e.DirEntry? ==> ReadFrom(disc, e.dir, depth, cursor))
  {
    assert [e][..0] == [];
  }

  /** One more entry read: its tree, if it is a directory, is read from where the walk of the ones before it ends. */
  lemma SubsReadAppend(disc: Disc, entries: seq<Entry>, e: Entry, depth: int, cursor: int)
    ensures SubsRead(disc, entries + [e], depth, cursor) <==>
      SubsRead(disc, entries, depth, cursor) && SubsRead(disc, [e], depth, WalkEnd(entries, cursor))
  {
    assert (entries + [e])[..|entries|] == entries;
    SubsReadOne(disc, e, depth, WalkEnd(entries, cursor));
  }

  /** What is read of a list of entries is read of each of its prefixes. */
  lemma {:induction false} SubsReadPrefix(disc: Disc, entries: seq<Entry>, j: int, depth: int, cursor: int)
    requires SubsRead(disc, entries, depth, cursor) && 0 <= j <= |entries|
    ensures SubsRead(disc, entries[..j], depth, cursor)
    decreases |entries|
  {
    if j < |entries| {
      var n := |entries| - 1;
      assert entries[..n][..j] == entries[..j];
      SubsReadPrefix(disc, entries[..n], j, depth, cursor);
    } else {
      assert entries[..j] == entries;
    }
  }

  // ---------------------------------------------------------------------
  // What the disc holds: when the walk succeeds
  // ---------------------------------------------------------------------

  /** The disc holds a tree for `dir`: one with its path, start sector and size, read at `depth` from `cursor`. */
  ghost predicate HoldsTree(disc: Disc, dir: Directory, depth: int, cursor: int)
  {
    exists t :: ReadFrom(disc, t, depth, cursor) && t.path == dir.path && t.startSector == dir.startSector && t.sizeInBytes == dir.sizeInBytes
  }

  /** The disc holds entries for `records` under `parent`: one per record, each subdirectory read from the disc. */
  ghost predicate HoldsEntries(disc: Disc, parent: string, records: seq<DirRecord>, depth: int, cursor: int)
  {
    exists es :: EntriesOf(parent, records, es) && SubsRead(disc, es, depth, cursor)
  }

  /** The disc holds an entry for record `r` under `parent`. */
  ghost predicate HoldsEntry(disc: Disc, parent: string, r: DirRecord, depth: int, cursor: int)
  {
    exists e :: EntryOf(parent, r, e) && SubsRead(disc, [e], depth, cursor)
  }

  /**
   * A tree the disc holds is within the depth limit and has its listing on
   * the disc, and the disc holds the entries of that listing, read from
   * where the directory's own sectors end.
   */
  lemma TreeHeld(disc: Disc, dir: Directory, depth: int, cursor: int)
    requires HoldsTree(disc, dir, depth, cursor)
    ensures depth <= MaxDirectoryDepth && DiscListing(disc, dir.startSector, dir.sizeInBytes, cursor).Some?
    ensures HoldsEntries(disc, dir.path, DiscListing(disc, dir.startSector, dir.sizeInBytes, cursor).value,
                         depth + 1, DirStart(dir, cursor) + DirSectorCount(dir.sizeInBytes))
  {
    var t :| ReadFrom(disc, t, depth, cursor) && t.path == dir.path && t.startSector == dir.startSector && t.sizeInBytes == dir.sizeInBytes;
    assert DirStart(t, cursor) == DirStart(dir, cursor);
  }

  /** Contrapositive of TreeHeld: each way the walk of a directory fails shows that the disc does not hold its tree. */
  lemma TreeNotHeld(disc: Disc, dir: Directory, depth: int, cursor: int)
    requires depth > MaxDirectoryDepth || DiscListing(disc, dir.startSector, dir.sizeInBytes, cursor).None?
             || !HoldsEntries(disc, dir.path, DiscListing(disc, dir.startSector, dir.sizeInBytes, cursor).value,
                              depth + 1, DirStart(dir, cursor) + DirSectorCount(dir.sizeInBytes))
    ensures !HoldsTree(disc, dir, depth, cursor)
  {
    if HoldsTree(disc, dir, depth, cursor) {
      TreeHeld(disc, dir, depth, cursor);
    }
  }

  /** A subdirectory record whose entry the disc holds: the disc holds the tree of that subdirectory. */
  lemma EntryHeldTree(disc: Disc, parent: string, r: DirRecord, depth: int, cursor: int)
    requires r.isDirectory && HoldsEntry(disc, parent, r, depth, cursor)
    ensures HoldsTree(disc, Directory(Child(parent, r.name), r.sector, r.size, []), depth, cursor)
  {
    var e :| EntryOf(parent, r, e) && SubsRead(disc, [e], depth, cursor);
    SubsReadOne(disc, e, depth, cursor);
  }

  /**
   * The entries the disc holds for `records`, walked up to record i: entry
   * i is the disc's entry for record i, read from where the walk of the
   * entries before it ends.
   */
  lemma NextEntryHeld(disc: Disc, parent: string, records: seq<DirRecord>, full: seq<Entry>, i: int, depth: int, cursor: int)
    requires EntriesOf(parent, records, full) && SubsRead(disc, full, depth, cursor) && 0 <= i < |records|
    ensures EntryOf(parent, records[i], full[i]) && SubsRead(disc, [full[i]], depth, WalkEnd(full[..i], cursor))
    ensures HoldsEntry(disc, parent, records[i], depth, WalkEnd(full[..i], cursor))
  {
    SubsReadPrefix(disc, full, i + 1, depth, cursor);
    assert full[..i + 1] == full[..i] + [full[i]];
    SubsReadAppend(disc, full[..i], full[i], depth, cursor);
  }

  /**
   * When the disc holds the entries of all the records, a walk that has
   * read the first of them finds the next one held where it stands.
   */
  lemma EntriesHeldNext(disc: Disc, parent: string, records: seq<DirRecord>, entries: seq<Entry>, depth: int, cursor: int)
    requires HoldsEntries(disc, parent, records, depth, cursor)
    requires |entries| < |records| && EntriesOf(parent, records[..|entries|], entries)
    requires SubsRead(disc, entries, depth, cursor)
    ensures HoldsEntry(disc, parent, records[|entries|], depth, WalkEnd(entries, cursor))
  {
    var full :| EntriesOf(parent, records, full) && SubsRead(disc, full, depth, cursor);
    var i := |entries|;
    EntriesOfPrefix(parent, records, full, i);
    SubsReadPrefix(disc, full, i, depth, cursor);
    EntriesUnique(disc, parent, records[..i], entries, full[..i], depth, cursor);
    NextEntryHeld(disc, parent, records, full, i, depth, cursor);
  }

  /**
   * Contrapositive of EntriesHeldNext: when the next record's entry is not
   * held where the walk stands, the disc does not hold the entries of all
   * the records.
   */
  lemma EntriesNotHeld(disc: Disc, parent: string, records: seq<DirRecord>, entries: seq<Entry>, i: int, depth: int, cursor: int, at: int)
    requires i == |entries| < |records| && EntriesOf(parent, records[..i], entries)
    requires SubsRead(disc, entries, depth, cursor) && at == WalkEnd(entries, cursor)
    requires !HoldsEntry(disc, parent, records[i], depth, at)
    ensures !HoldsEntries(disc, parent, records, depth, cursor)
  {
    if HoldsEntries(disc, parent, records, depth, cursor) {
      EntriesHeldNext(disc, parent, records, entries, depth, cursor);
    }
  }

  /**
   * The disc holds the tree of a root directory at `rootSector` of
   * `rootSize` bytes, and the layout of its files over a volume of
   * `volumeSize` sectors puts a file at sector 0: what opening needs.
   */
  ghost predicate Openable(disc: Disc, rootSector: int, rootSize: int, volumeSize: int, cursor: int)
  {
    volumeSize > 0
    && exists t :: ReadFrom(disc, t, 0, cursor) && t.path == "" && t.startSector == rootSector && t.sizeInBytes == rootSize
         && FindFile(WithPlaceholders(SortByStart(FilesIn(t.entries)), volumeSize), 0).Some?
  }

  /** An openable disc holds the root tree. */
  lemma OpenableHolds(disc: Disc, rootSector: int, rootSize: int, volumeSize: int, cursor: int)
    requires Openable(disc, rootSector, rootSize, volumeSize, cursor)
    ensures HoldsTree(disc, Directory("", rootSector, rootSize, []), 0, cursor)
  {
    var t :| ReadFrom(disc, t, 0, cursor) && t.path == "" && t.startSector == rootSector && t.sizeInBytes == rootSize
         && FindFile(WithPlaceholders(SortByStart(FilesIn(t.entries)), volumeSize), 0).Some?;
  }

  /**
   * On an openable disc, the root tree read puts a file at sector 0 of its
   * layout, and the disc has a sector 0 to seek to.
   */
  lemma OpenableLayout(disc: Disc, rootSector: int, rootSize: int, volumeSize: int, cursor: int, tree: Directory)
    requires Openable(disc, rootSector, rootSize, volumeSize, cursor)
    requires ReadFrom(disc, tree, 0, cursor) && tree.path == "" && tree.startSector == rootSector && tree.sizeInBytes == rootSize
    ensures FindFile(WithPlaceholders(SortByStart(FilesIn(tree.entries)), volumeSize), 0).Some?
    ensures 0 < |disc|
  {
    var t :| ReadFrom(disc, t, 0, cursor) && t.path == "" && t.startSector == rootSector && t.sizeInBytes == rootSize
         && FindFile(WithPlaceholders(SortByStart(FilesIn(t.entries)), volumeSize), 0).Some?;
    ReadFromUnique(disc, tree, t, 0, cursor);
    ReadFromReadable(disc, tree, 0, cursor);
    assert Readable(disc, DirStart(tree, cursor));
  }

  /** A root with a start sector is openable whatever the cursor. */
  lemma OpenableAnyCursor(disc: Disc, rootSector: int, rootSize: int, volumeSize: int, c1: int, c2: int)
    requires rootSector >= 0 && Openable(disc, rootSector, rootSize, volumeSize, c1)
    ensures Openable(disc, rootSector, rootSize, volumeSize, c2)
  {
    var t :| ReadFrom(disc, t, 0, c1) && t.path == "" && t.startSector == rootSector && t.sizeInBytes == rootSize
         && FindFile(WithPlaceholders(SortByStart(FilesIn(t.entries)), volumeSize), 0).Some?;
    ReadFromAnyCursor(disc, t, 0, c1, c2);
  }

  /** Walking a single entry: a file leaves the cursor alone, a directory moves it past its tree. */
  lemma WalkOne(e: Entry, cursor: int)
    ensures e.FileEntry? ==> WalkEnd([e], cursor) == cursor
    ensures e.DirEntry? ==> WalkEnd([e], cursor) == WalkEnd(e.dir.entries, DirStart(e.dir, cursor) + DirSectorCount(e.dir.sizeInBytes))
  {
    assert [e][..0] == [];
  }

  /** Walking one more entry continues from where the walk of the ones before it ends. */
  lemma WalkAppend(entries: seq<Entry>, e: Entry, cursor: int)
    ensures WalkEnd(entries + [e], cursor) == WalkEnd([e], WalkEnd(entries, cursor))
    ensures forall k :: 0 <= k <= |entries| ==> (entries + [e])[..k] == entries[..k]
  {
    assert (entries + [e])[..|entries|] == entries;
    assert [e][..0] == [];
  }

  /** What a directory holding the single entry `e` amounts to. */
  lemma OneEntry(e: Entry, inRoot: bool, inVideoTs: bool, path: string)
    ensures FilesIn([e]) == match e
      case FileEntry(_, f) => [f]
      case DirEntry(_, d) => FilesIn(d.entries)
    ensures VtsIn([e], inRoot, inVideoTs) == match e
      case FileEntry(name, _) => if inVideoTs && VtsInformationFileNumber(name) >= 0 then 1 else 0
      case DirEntry(name, d) => VtsIn(d.entries, false, inRoot && ToUpper(name) == "VIDEO_TS")
    ensures Nesting([e]) == match e
      case FileEntry(_, _) => 0
      case DirEntry(_, d) => 1 + Nesting(d.entries)
    ensures PathsUnder(path, [e]) <== match e
      case FileEntry(name, f) => f.name == Child(path, name)
      case DirEntry(name, d) => d.path == Child(path, name)
  {
    assert [e][..0] == [];
  }
}
