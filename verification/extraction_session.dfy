/**
 * The DVD extraction session: a queue of transfers, each copying a range of
 * DVD sectors into an output file, run one after the other with counters
 * of the files and sectors to copy and already copied.
 *
 * The file system and the data pull are outside the model: whether an
 * output file exists, whether the user confirms, and whether the next
 * transfer can start (its directory created, its file opened, its data
 * pull started) are parameters. The signals the session emits are kept as
 * logs: the completion outcomes and the progress reports.
 */
module DvdExtractionSession {
  import DvdMedia

  /** The state of the data pull of one transfer. */
  datatype PullState = Idle | Running | Stopping

  predicate IsStarted(p: PullState)
  {
    p != Idle
  }

  /** OutputFile: one file to write from a range of sectors. */
  datatype Transfer = Transfer(fileName: string, startSector: int, sectorCount: int,
                               policy: DvdMedia.BadSectorPolicy, pull: PullState)

  /** The sectors of a list of transfers. */
  function Sectors(ts: seq<Transfer>): int
  {
    if |ts| == 0 then 0 else Sectors(ts[..|ts| - 1]) + ts[|ts| - 1].sectorCount
  }

  /** The sectors of a list are those of its head plus those of the rest. */
  lemma {:induction false} SectorsHead(ts: seq<Transfer>)
    requires |ts| > 0
    ensures Sectors(ts) == ts[0].sectorCount + Sectors(ts[1..])
    decreases |ts|
  {
    if |ts| > 1 {
      SectorsHead(ts[..|ts| - 1]);
      assert ts[..|ts| - 1][1..] == ts[1..][..|ts| - 2];
    }
  }

  /** The pull state plays no part in the count. */
  lemma {:induction false} SectorsOfPull(ts: seq<Transfer>, p: PullState)
    requires |ts| > 0
    ensures Sectors(ts[0 := ts[0].(pull := p)]) == Sectors(ts)
  {
    SectorsHead(ts);
    SectorsHead(ts[0 := ts[0].(pull := p)]);
    assert ts[0 := ts[0].(pull := p)][1..] == ts[1..];
  }

  /** The destination files among the transfers that already exist, in queue order. */
  function Existing(ts: seq<Transfer>, onDisk: set<string>): seq<string>
  {
    if |ts| == 0 then []
    else Existing(ts[..|ts| - 1], onDisk) + (if ts[|ts| - 1].fileName in onDisk then [ts[|ts| - 1].fileName] else [])
  }

  /** A name is listed exactly when it exists and some transfer writes it. */
  lemma {:induction false} ExistingExactly(ts: seq<Transfer>, onDisk: set<string>, name: string)
    ensures name in Existing(ts, onDisk) <==> name in onDisk && exists i :: 0 <= i < |ts| && ts[i].fileName == name
    decreases |ts|
  {
    if |ts| > 0 {
      var front := ts[..|ts| - 1];
      ExistingExactly(front, onDisk, name);
      if exists i :: 0 <= i < |front| && front[i].fileName == name {
        var i :| 0 <= i < |front| && front[i].fileName == name;
        assert ts[i].fileName == name;
      }
      if exists i :: 0 <= i < |ts| && ts[i].fileName == name {
        var i :| 0 <= i < |ts| && ts[i].fileName == name;
        if i < |front| {
          assert front[i].fileName == name;
        }
      }
    }
  }

  /** The loop of askOverwriteOutput that lists the existing destination files. */
  method ExistingFiles(ts: seq<Transfer>, onDisk: set<string>) returns (existing: seq<string>)
    ensures existing == Existing(ts, onDisk)
    ensures forall name :: name in existing <==> name in onDisk && exists i :: 0 <= i < |ts| && ts[i].fileName == name
  {
    existing := [];
    for i := 0 to |ts|
      invariant existing == Existing(ts[..i], onDisk)
    {
      if ts[i].fileName in onDisk {
        existing := existing + [ts[i].fileName];
      }
      assert ts[..i + 1][..i] == ts[..i];
    }
    assert ts[..|ts|] == ts;
    forall name
      ensures name in existing <==> name in onDisk && exists i :: 0 <= i < |ts| && ts[i].fileName == name
    {
      ExistingExactly(ts, onDisk, name);
    }
  }

  /** C++ integer division, truncating toward zero. */
  function CDiv(a: int, b: int): (r: int)
    requires b > 0
    ensures a >= 0 ==> r == a / b
    ensures a < 0 ==> r == -((-a) / b)
  {
    if a >= 0 then a / b else -((-a) / b)
  }

  class ExtractionSession {
    /** isStarted() of the action. */
    var started: bool
    var transfers: seq<Transfer>
    var totalSectors: int
    var completedSectors: int
    var totalFiles: int
    var completedFiles: int
    /** The outcomes emitted with completed(), in order. */
    var completions: seq<bool>
    /** The (current, maximum) sector counts emitted with progress(), in order. */
    var progress: seq<(int, int)>
    /** The files and sectors abort dropped from the queue without copying them. */
    ghost var droppedFiles: nat
    ghost var droppedSectors: int

    /**
     * Every queued file is either copied, still queued or dropped by an
     * abort, and so is every sector; only the head of the queue may have
     * its data pull started.
     */
    ghost predicate Valid()
      reads this
    {
      && completedFiles + |transfers| + droppedFiles == totalFiles
      && completedSectors + Sectors(transfers) + droppedSectors == totalSectors
      && (forall i :: 1 <= i < |transfers| ==> transfers[i].pull == Idle)
      && (!started ==> droppedFiles == 0 && droppedSectors == 0 && forall i :: 0 <= i < |transfers| ==> transfers[i].pull == Idle)
    }

    constructor()
      ensures Valid() && !started && transfers == [] && completions == [] && progress == []
      ensures totalSectors == 0 && completedSectors == 0 && totalFiles == 0 && completedFiles == 0
    {
      started, transfers, completions, progress := false, [], [], [];
      totalSectors, completedSectors, totalFiles, completedFiles := 0, 0, 0, 0;
      droppedFiles, droppedSectors := 0, 0;
    }

    /**
     * addFile: after start, only an internal error is logged; before, the
     * transfer is queued and counted in the totals.
     */
    method AddFile(fileName: string, startSector: int, sectorCount: int, policy: DvdMedia.BadSectorPolicy)
      requires Valid()
      modifies this
      ensures Valid()
      ensures old(started) ==> unchanged(this)
      ensures !old(started) ==> && transfers == old(transfers) + [Transfer(fileName, startSector, sectorCount, policy, Idle)]
                                && totalSectors == old(totalSectors) + sectorCount
                                && totalFiles == old(totalFiles) + 1
                                && started == old(started) && completedSectors == old(completedSectors)
                                && completedFiles == old(completedFiles) && completions == old(completions)
                                && progress == old(progress) && droppedFiles == old(droppedFiles)
                                && droppedSectors == old(droppedSectors)
    {
      if started {
        return;
      }
      var t := Transfer(fileName, startSector, sectorCount, policy, Idle);
      assert (transfers + [t])[..|transfers|] == transfers;
      transfers := transfers + [t];
      totalSectors := totalSectors + sectorCount;
      totalFiles := totalFiles + 1;
    }

    /**
     * askOverwriteOutput: the destination files that already exist are
     * listed; with none, or when the user confirms, they are deleted and
     * the outcome is true, otherwise it is false and nothing is deleted.
     */
    method AskOverwriteOutput(onDisk: set<string>, confirm: bool) returns (ok: bool, deleted: seq<string>)
      ensures deleted == (if ok then Existing(transfers, onDisk) else [])
      ensures ok <==> |Existing(transfers, onDisk)| == 0 || confirm
    {
      var existing := ExistingFiles(transfers, onDisk);
      if |existing| > 0 && !confirm {
        return false, [];
      }
      return true, existing;
    }

    /** dataPullProgressed: the sectors of the finished transfers plus those of the current one. */
    method DataPullProgressed(current: int)
      modifies this
      ensures progress == old(progress) + [(old(completedSectors) + CDiv(current, DvdMedia.SectorSize), old(totalSectors))]
      ensures started == old(started) && transfers == old(transfers) && completions == old(completions)
      ensures totalSectors == old(totalSectors) && completedSectors == old(completedSectors)
      ensures totalFiles == old(totalFiles) && completedFiles == old(completedFiles)
      ensures droppedFiles == old(droppedFiles) && droppedSectors == old(droppedSectors)
    {
      progress := progress + [(completedSectors + CDiv(current, DvdMedia.SectorSize), totalSectors)];
    }

    /**
     * start: refused once started; otherwise the first transfer is
     * started, and a failure to start it completes the session with an error.
     */
    method Start(canStart: bool) returns (r: bool)
      requires Valid()
      modifies this
      ensures Valid() && started
      ensures r <==> !old(started)
      ensures old(started) ==> unchanged(this)
      ensures !old(started) && old(transfers) == [] ==> completions == old(completions) + [true] && transfers == []
      ensures !old(started) && old(transfers) != [] && canStart ==>
                transfers == old(transfers)[0 := old(transfers)[0].(pull := Running)] && completions == old(completions)
      ensures !old(started) && old(transfers) != [] && !canStart ==>
                transfers == old(transfers)[1..] && completions == old(completions) + [false, false]
    {
      if started {
        return false;
      }
      started := true;
      var next := StartNextExtraction(canStart);
      if !next {
        completions := completions + [false];
      }
      return true;
    }

    /**
     * startNextExtraction: an empty queue completes the session with
     * success; otherwise the head transfer is started, kept in the queue,
     * and a failure to start it is handled as its completion with an error.
     */
    method StartNextExtraction(canStart: bool) returns (r: bool)
      requires Valid() && started
      modifies this
      decreases |transfers|, 1
      ensures Valid() && started
      ensures totalSectors == old(totalSectors) && totalFiles == old(totalFiles)
      ensures droppedFiles == old(droppedFiles) && droppedSectors == old(droppedSectors)
      ensures old(transfers) == [] ==> r && transfers == [] && completions == old(completions) + [true]
                                       && progress == old(progress) && completedSectors == old(completedSectors)
                                       && completedFiles == old(completedFiles)
      ensures old(transfers) != [] && canStart ==> r && transfers == old(transfers)[0 := old(transfers)[0].(pull := Running)]
                                                   && completions == old(completions) && progress == old(progress)
                                                   && completedSectors == old(completedSectors)
                                                   && completedFiles == old(completedFiles)
      ensures old(transfers) != [] && !canStart ==> !r && transfers == old(transfers)[1..]
                                                    && completions == old(completions) + [false]
                                                    && completedSectors == old(completedSectors) + old(transfers)[0].sectorCount
                                                    && completedFiles == old(completedFiles) + 1
                                                    && progress == old(progress) + [(completedSectors, totalSectors)]
                                                    && forall i :: 0 <= i < |transfers| ==> transfers[i].pull == Idle
    {
      if |transfers| == 0 {
        completions := completions + [true];
        return true;
      }
      if !canStart {
        DataPullCompleted(false, canStart);
        return false;
      }
      SectorsOfPull(transfers, Running);
      transfers := transfers[0 := transfers[0].(pull := Running)];
      return true;
    }

    /**
     * abort: with a started session and a non-empty queue, every queued
     * transfer is dropped except a head whose data pull has started, which
     * is asked to stop; with nothing left, the session completes with an error.
     */
    method Abort()
      requires Valid()
      modifies this
      ensures Valid()
      ensures !old(started) || old(transfers) == [] ==> unchanged(this)
      ensures old(started) && old(transfers) != [] ==>
                && transfers == (if IsStarted(old(transfers)[0].pull) then [old(transfers)[0].(pull := Stopping)] else [])
                && completions == old(completions) + (if IsStarted(old(transfers)[0].pull) then [] else [false])
                && started && progress == old(progress)
                && completedSectors == old(completedSectors) && completedFiles == old(completedFiles)
                && totalSectors == old(totalSectors) && totalFiles == old(totalFiles)
    {
      if !started || |transfers| == 0 {
        return;
      }
      ghost var queue := transfers;
      while |transfers| > 1 || (|transfers| > 0 && !IsStarted(transfers[0].pull))
        invariant Valid() && started
        invariant |transfers| <= |queue| && transfers == queue[..|transfers|]
        invariant |transfers| == 0 ==> !IsStarted(queue[0].pull)
        invariant totalSectors == old(totalSectors) && totalFiles == old(totalFiles)
        invariant completedSectors == old(completedSectors) && completedFiles == old(completedFiles)
        invariant completions == old(completions) && progress == old(progress)
        decreases |transfers|
      {
        var last := transfers[|transfers| - 1];
        droppedFiles := droppedFiles + 1;
        droppedSectors := droppedSectors + last.sectorCount;
        transfers := transfers[..|transfers| - 1];
      }
      if |transfers| == 0 {
        completions := completions + [false];
      } else {
        SectorsOfPull(transfers, Stopping);
        transfers := transfers[0 := transfers[0].(pull := Stopping)];
      }
    }

    /**
     * dataPullCompleted: the head transfer leaves the queue and is counted
     * as copied, and progress is reported. After a success, an empty queue
     * completes the session with success and otherwise the next transfer is
     * started; a failure, or a failure to start the next transfer,
     * completes the session with an error.
     */
    method DataPullCompleted(success: bool, canStartNext: bool)
      requires Valid() && started && |transfers| > 0
      modifies this
      decreases |transfers|, 0
      ensures Valid() && started
      ensures totalSectors == old(totalSectors) && totalFiles == old(totalFiles)
      ensures droppedFiles == old(droppedFiles) && droppedSectors == old(droppedSectors)
      ensures var head, rest := old(transfers)[0], old(transfers)[1..];
              var done := old(completedSectors) + head.sectorCount;
              && (!success ==> transfers == rest && completions == old(completions) + [false]
                               && completedSectors == done && completedFiles == old(completedFiles) + 1
                               && progress == old(progress) + [(done, totalSectors)]
                               && forall i :: 0 <= i < |transfers| ==> transfers[i].pull == Idle)
              && (success && rest == [] ==> transfers == [] && completions == old(completions) + [true]
                                            && completedSectors == done && completedFiles == old(completedFiles) + 1
                                            && progress == old(progress) + [(done, totalSectors)])
              && (success && rest != [] && canStartNext ==>
                    transfers == rest[0 := rest[0].(pull := Running)] && completions == old(completions)
                    && completedSectors == done && completedFiles == old(completedFiles) + 1
                    && progress == old(progress) + [(done, totalSectors)])
              && (success && rest != [] && !canStartNext ==>
                    transfers == rest[1..] && completions == old(completions) + [false, false]
                    && completedSectors == done + rest[0].sectorCount && completedFiles == old(completedFiles) + 2
                    && progress == old(progress) + [(done, totalSectors), (done + rest[0].sectorCount, totalSectors)])
    {
      var out := transfers[0];
      SectorsHead(transfers);
      transfers := transfers[1..];
      completedSectors := completedSectors + out.sectorCount;
      completedFiles := completedFiles + 1;
      DataPullProgressed(0);
      if success {
        if |transfers| == 0 {
          completions := completions + [true];
          return;
        }
        var next := StartNextExtraction(canStartNext);
        if next {
          return;
        }
      }
      completions := completions + [false];
    }
  }
}
